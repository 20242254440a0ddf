/**
 * The package's dispatch between frames and packets (golang/v2/parser.go):
 * `handleServerOutput` picks the server packet by its tags, and
 * `parsePacketToString` writes whichever client packet it is given.
 */
module Parser {
  import opened Results
  import opened Checksum
  import opened Envelope
  import Floats
  import Args
  import AbPacket
  import AcPacket
  import AoPacket
  import ArPacket
  import AsPacket
  import AuPacket
  import PaPacket
  import PbPacket
  import PcPacket
  import PdPacket
  import PiPacket
  import PmPacket
  import PrPacket
  import PsPacket

  /** A frame carries at most one pair of tags. */
  lemma TagsExclusive(raw: string, t: Tag, u: Tag)
    requires Wrapped(raw, t) && Wrapped(raw, u)
    ensures t == u
  {
    assert raw[..4] == OpenTag(t) == OpenTag(u);
    assert t == OpenTag(t)[1..3] && u == OpenTag(u)[1..3];
  }

  // ---------------------------------------------------------------------------
  // Server responses

  /** The packets a server sends. */
  datatype ServerPacket =
    | Ab(ab: AbPacket.Packet)
    | Ac(ac: AcPacket.Packet)
    | Ao(ao: AoPacket.Packet)
    | Ar(ar: ArPacket.Packet)
    | As(accepted: AsPacket.Packet)
    | Au(unauthorized: AuPacket.Packet)

  datatype ServerKind = AbKind | AcKind | AoKind | ArKind | AsKind | AuKind

  /** The server kinds in the order the dispatch tries their tags. */
  const ServerKinds: seq<ServerKind> := [AbKind, AcKind, AoKind, ArKind, AsKind, AuKind]

  function ServerTag(k: ServerKind): Tag {
    match k
    case AbKind => "Ab"
    case AcKind => "Ac"
    case AoKind => "Ao"
    case ArKind => "Ar"
    case AsKind => "As"
    case AuKind => "Au"
  }

  /** The decoder of one server packet kind, its result tagged with the kind. */
  function DecodeServer(tab: Table, ft: Floats.FloatText, k: ServerKind, resp: string): Result<ServerPacket, GoError> {
    match k
    case AbKind => var p :- AbPacket.FromPacket(tab, resp); Ok(Ab(p))
    case AcKind => var p :- AcPacket.FromPacket(tab, ft, resp); Ok(Ac(p))
    case AoKind => var p :- AoPacket.FromPacket(tab, resp); Ok(Ao(p))
    case ArKind => var p :- ArPacket.FromPacket(tab, resp); Ok(Ar(p))
    case AsKind => var p :- AsPacket.FromPacket(tab, resp); Ok(As(p))
    case AuKind => var p :- AuPacket.FromPacket(tab, resp); Ok(Au(p))
  }

  /**
   * The kinds are tried in order; the first whose `<Tg>` prefix and `</Tg>`
   * suffix both match hands the whole frame to its decoder, whose error is
   * returned as it is. A frame of no listed kind is an invalid response.
   */
  function DispatchServer(tab: Table, ft: Floats.FloatText, resp: string, kinds: seq<ServerKind>): Result<ServerPacket, GoError>
    decreases |kinds|
  {
    if kinds == [] then Err(InvalidResponse)
    else if Wrapped(resp, ServerTag(kinds[0])) then DecodeServer(tab, ft, kinds[0], resp)
    else DispatchServer(tab, ft, resp, kinds[1..])
  }

  function HandleServerOutput(tab: Table, ft: Floats.FloatText, resp: string): Result<ServerPacket, GoError> {
    DispatchServer(tab, ft, resp, ServerKinds)
  }

  /**
   * Whatever tag a frame carries, the dispatch answers exactly as that
   * kind's decoder does, so the order the kinds are tried in is immaterial.
   */
  lemma {:induction false} DispatchServerByTag(tab: Table, ft: Floats.FloatText, resp: string, kinds: seq<ServerKind>, k: ServerKind)
    requires k in kinds && Wrapped(resp, ServerTag(k))
    ensures DispatchServer(tab, ft, resp, kinds) == DecodeServer(tab, ft, k, resp)
    decreases |kinds|
  {
    if Wrapped(resp, ServerTag(kinds[0])) {
      TagsExclusive(resp, ServerTag(kinds[0]), ServerTag(k));
      ServerTagInjective(kinds[0], k);
    } else {
      assert kinds[0] != k;
      DispatchServerByTag(tab, ft, resp, kinds[1..], k);
    }
  }

  lemma ServerTagInjective(j: ServerKind, k: ServerKind)
    requires ServerTag(j) == ServerTag(k)
    ensures j == k
  {
  }

  /** A frame with none of the listed tags is an invalid response. */
  lemma {:induction false} DispatchServerNoTag(tab: Table, ft: Floats.FloatText, resp: string, kinds: seq<ServerKind>)
    requires forall k <- kinds :: !Wrapped(resp, ServerTag(k))
    ensures DispatchServer(tab, ft, resp, kinds) == Err(InvalidResponse)
    decreases |kinds|
  {
    if kinds != [] {
      assert kinds[0] in kinds;
      DispatchServerNoTag(tab, ft, resp, kinds[1..]);
    }
  }

  /** `handleServerOutput` answers as the decoder of the kind whose tags the frame carries. */
  lemma DispatchByTag(tab: Table, ft: Floats.FloatText, resp: string, k: ServerKind)
    requires Wrapped(resp, ServerTag(k))
    ensures HandleServerOutput(tab, ft, resp) == DecodeServer(tab, ft, k, resp)
  {
    DispatchServerByTag(tab, ft, resp, ServerKinds, k);
  }

  /** A decoder's error reaches the caller unchanged. */
  lemma ErrorPassedThrough(tab: Table, ft: Floats.FloatText, resp: string, k: ServerKind)
    requires Wrapped(resp, ServerTag(k)) && DecodeServer(tab, ft, k, resp).Err?
    ensures HandleServerOutput(tab, ft, resp) == Err(DecodeServer(tab, ft, k, resp).error)
  {
    DispatchByTag(tab, ft, resp, k);
  }

  /** A frame whose tag is no server kind's, a client packet say, is an invalid response. */
  lemma OtherTagInvalid(tab: Table, ft: Floats.FloatText, resp: string, tag: Tag)
    requires Wrapped(resp, tag) && forall k: ServerKind :: ServerTag(k) != tag
    ensures HandleServerOutput(tab, ft, resp) == Err(InvalidResponse)
  {
    forall k <- ServerKinds
      ensures !Wrapped(resp, ServerTag(k))
    {
      if Wrapped(resp, ServerTag(k)) {
        TagsExclusive(resp, ServerTag(k), tag);
      }
    }
    DispatchServerNoTag(tab, ft, resp, ServerKinds);
  }

  /** The server packets the encoders write so that they read back. */
  predicate ServerWritable(ft: Floats.FloatText, sp: ServerPacket, orders: seq<seq<string>>) {
    match sp
    case Ab(p) => |p.devices| >= 1 && forall d <- p.devices :: AbPacket.Writable(d)
    case Ac(p) => AcPacket.Orders(p.commands, orders) && p.commands != [] && forall c <- p.commands :: AcPacket.Writable(ft, c)
    case Ar(p) => ';' !in p.reason
    case _ => true
  }

  /** The frame each server packet's `ToPacket` writes; `orders` is the map order of the command arguments. */
  function EncodeServer(tab: Table, ft: Floats.FloatText, sp: ServerPacket, orders: seq<seq<string>>): string
    requires sp.Ac? ==> AcPacket.Orders(sp.ac.commands, orders)
  {
    match sp
    case Ab(p) => AbPacket.ToPacket(tab, p)
    case Ac(p) => AcPacket.ToPacket(tab, ft, p, orders)
    case Ao(p) => AoPacket.ToPacket(tab, p)
    case Ar(p) => ArPacket.ToPacket(tab, p)
    case As(p) => AsPacket.ToPacket(tab, p)
    case Au(p) => AuPacket.ToPacket(tab, p)
  }

  /** Every writable server packet, encoded, is dispatched back to itself. */
  lemma ServerRoundTrip(tab: Table, ft: Floats.FloatText, sp: ServerPacket, orders: seq<seq<string>>)
    requires ServerWritable(ft, sp, orders)
    ensures HandleServerOutput(tab, ft, EncodeServer(tab, ft, sp, orders)) == Ok(sp)
  {
    match sp
    case Ab(p) => AbRoundTrip(tab, ft, p);
    case Ac(p) => AcRoundTrip(tab, ft, p, orders);
    case Ao(p) => AoRoundTrip(tab, ft, p);
    case Ar(p) => ArRoundTrip(tab, ft, p);
    case As(p) => AsRoundTrip(tab, ft, p);
    case Au(p) => AuRoundTrip(tab, ft, p);
  }

  lemma AbRoundTrip(tab: Table, ft: Floats.FloatText, p: AbPacket.Packet)
    requires ServerWritable(ft, Ab(p), [])
    ensures HandleServerOutput(tab, ft, AbPacket.ToPacket(tab, p)) == Ok(Ab(p))
  {
    AbPacket.RoundTrip(tab, p);
    AbDispatch(tab, ft, AbPacket.ToPacket(tab, p), p);
  }

  /** A frame the Ab decoder accepts is dispatched to it. */
  lemma AbDispatch(tab: Table, ft: Floats.FloatText, raw: string, p: AbPacket.Packet)
    requires AbPacket.FromPacket(tab, raw) == Ok(p)
    ensures HandleServerOutput(tab, ft, raw) == Ok(Ab(p))
  {
    assert Wrapped(raw, ServerTag(AbKind));
    DispatchByTag(tab, ft, raw, AbKind);
    assert DecodeServer(tab, ft, AbKind, raw) == Ok(Ab(p));
  }

  lemma AcRoundTrip(tab: Table, ft: Floats.FloatText, p: AcPacket.Packet, orders: seq<seq<string>>)
    requires ServerWritable(ft, Ac(p), orders)
    ensures HandleServerOutput(tab, ft, AcPacket.ToPacket(tab, ft, p, orders)) == Ok(Ac(p))
  {
    AcPacket.RoundTrip(tab, ft, p, orders);
    AcDispatch(tab, ft, AcPacket.ToPacket(tab, ft, p, orders), p);
  }

  /** A frame the Ac decoder accepts is dispatched to it. */
  lemma AcDispatch(tab: Table, ft: Floats.FloatText, raw: string, p: AcPacket.Packet)
    requires AcPacket.FromPacket(tab, ft, raw) == Ok(p)
    ensures HandleServerOutput(tab, ft, raw) == Ok(Ac(p))
  {
    assert Wrapped(raw, ServerTag(AcKind));
    DispatchByTag(tab, ft, raw, AcKind);
    assert DecodeServer(tab, ft, AcKind, raw) == Ok(Ac(p));
  }

  lemma AoRoundTrip(tab: Table, ft: Floats.FloatText, p: AoPacket.Packet)
    ensures HandleServerOutput(tab, ft, AoPacket.ToPacket(tab, p)) == Ok(Ao(p))
  {
    AoPacket.RoundTrip(tab, p);
    AoDispatch(tab, ft, AoPacket.ToPacket(tab, p), p);
  }

  /** A frame the Ao decoder accepts is dispatched to it. */
  lemma AoDispatch(tab: Table, ft: Floats.FloatText, raw: string, p: AoPacket.Packet)
    requires AoPacket.FromPacket(tab, raw) == Ok(p)
    ensures HandleServerOutput(tab, ft, raw) == Ok(Ao(p))
  {
    assert Wrapped(raw, ServerTag(AoKind));
    DispatchByTag(tab, ft, raw, AoKind);
    assert DecodeServer(tab, ft, AoKind, raw) == Ok(Ao(p));
  }

  lemma ArRoundTrip(tab: Table, ft: Floats.FloatText, p: ArPacket.Packet)
    requires ';' !in p.reason
    ensures HandleServerOutput(tab, ft, ArPacket.ToPacket(tab, p)) == Ok(Ar(p))
  {
    ArPacket.RoundTrip(tab, p);
    ArDispatch(tab, ft, ArPacket.ToPacket(tab, p), p);
  }

  /** A frame the Ar decoder accepts is dispatched to it. */
  lemma ArDispatch(tab: Table, ft: Floats.FloatText, raw: string, p: ArPacket.Packet)
    requires ArPacket.FromPacket(tab, raw) == Ok(p)
    ensures HandleServerOutput(tab, ft, raw) == Ok(Ar(p))
  {
    assert Wrapped(raw, ServerTag(ArKind));
    DispatchByTag(tab, ft, raw, ArKind);
    assert DecodeServer(tab, ft, ArKind, raw) == Ok(Ar(p));
  }

  lemma AsRoundTrip(tab: Table, ft: Floats.FloatText, p: AsPacket.Packet)
    ensures HandleServerOutput(tab, ft, AsPacket.ToPacket(tab, p)) == Ok(As(p))
  {
    AsPacket.RoundTrip(tab, p);
    AsDispatch(tab, ft, AsPacket.ToPacket(tab, p), p);
  }

  /** A frame the As decoder accepts is dispatched to it. */
  lemma AsDispatch(tab: Table, ft: Floats.FloatText, raw: string, p: AsPacket.Packet)
    requires AsPacket.FromPacket(tab, raw) == Ok(p)
    ensures HandleServerOutput(tab, ft, raw) == Ok(As(p))
  {
    assert Wrapped(raw, ServerTag(AsKind));
    DispatchByTag(tab, ft, raw, AsKind);
    assert DecodeServer(tab, ft, AsKind, raw) == Ok(As(p));
  }

  lemma AuRoundTrip(tab: Table, ft: Floats.FloatText, p: AuPacket.Packet)
    ensures HandleServerOutput(tab, ft, AuPacket.ToPacket(tab, p)) == Ok(Au(p))
  {
    AuPacket.RoundTrip(tab, p);
    AuDispatch(tab, ft, AuPacket.ToPacket(tab, p), p);
  }

  /** A frame the Au decoder accepts is dispatched to it. */
  lemma AuDispatch(tab: Table, ft: Floats.FloatText, raw: string, p: AuPacket.Packet)
    requires AuPacket.FromPacket(tab, raw) == Ok(p)
    ensures HandleServerOutput(tab, ft, raw) == Ok(Au(p))
  {
    assert Wrapped(raw, ServerTag(AuKind));
    DispatchByTag(tab, ft, raw, AuKind);
    assert DecodeServer(tab, ft, AuKind, raw) == Ok(Au(p));
  }

  // ---------------------------------------------------------------------------
  // Client packets

  /** The packets a client sends. */
  datatype ClientPacket =
    | Pa(pa: PaPacket.Packet)
    | Pb(pb: PbPacket.Packet)
    | Pc(pc: PcPacket.Packet)
    | Pd(pd: PdPacket.Packet)
    | Pi(pi: PiPacket.Packet)
    | Pm(pm: PmPacket.Packet)
    | Pr(pr: PrPacket.Packet)
    | Ps(ps: PsPacket.Packet)

  /** The Go value handed to `parsePacketToString`: one of the client packets, or a value of any other type. */
  datatype Outgoing = Client(packet: ClientPacket) | Other(typeName: string)

  /** `order` lists the keys of the map the packet writes, as Go's map iteration does. */
  predicate Enumerates(order: seq<string>, c: ClientPacket) {
    match c
    case Pd(p) => p.extraData.Some? ==> Args.IsOrder(order, p.extraData.value)
    case Ps(p) => Args.IsOrder(order, p.params)
    case _ => true
  }

  /** The frame each client packet's `ToPacket` writes; `order` is the map order of the extra data or the settings. */
  function EncodeClient(tab: Table, ft: Floats.FloatText, b64: PmPacket.Base64, order: seq<string>, c: ClientPacket)
    : string
    requires Enumerates(order, c)
  {
    match c
    case Pa(p) => PaPacket.ToPacket(tab, p)
    case Pb(p) => PbPacket.ToPacket(tab, ft, p)
    case Pc(p) => PcPacket.ToPacket(tab, p)
    case Pd(p) => PdPacket.ToPacket(tab, ft, p, order)
    case Pi(p) => PiPacket.ToPacket(tab, p)
    case Pm(p) => PmPacket.ToPacket(tab, b64, p)
    case Pr(p) => PrPacket.ToPacket(tab, p)
    case Ps(p) => PsPacket.ToPacket(tab, ft, p, order)
  }

  /**
   * The packet's own `ToPacket`; any other type is rejected. No encoder
   * returns nil, so the second check of the source never fails.
   */
  function ParsePacketToString(tab: Table, ft: Floats.FloatText, b64: PmPacket.Base64, order: seq<string>,
                               x: Outgoing): (r: Result<string, GoError>)
    requires x.Client? ==> Enumerates(order, x.packet)
    ensures r.Ok? <==> x.Client?
    ensures r.Err? ==> r.error == InvalidPacketType
    ensures r.Ok? ==> r.value == EncodeClient(tab, ft, b64, order, x.packet)
  {
    match x
    case Other(_) => Err(InvalidPacketType)
    case Client(c) => Ok(EncodeClient(tab, ft, b64, order, c))
  }

  /** The client packets the encoders write so that they read back. */
  ghost predicate ClientWritable(ft: Floats.FloatText, b64: PmPacket.Base64, order: seq<string>, c: ClientPacket) {
    match c
    case Pa(p) => ';' !in p.ident && ';' !in p.password
    case Pb(p) => Floats.Lawful(ft) && p.advertisements != [] && forall a <- p.advertisements :: PbPacket.Writable(a)
    case Pc(p) => ';' !in p.message
    case Pd(p) =>
      Floats.Lawful(ft) &&
      (p.extraData.Some? ==> Args.IsOrder(order, p.extraData.value) && PdPacket.ExtraStable(ft, p.extraData.value))
    case Pi(p) => ';' !in p.ident && ';' !in p.firmwareId && ';' !in p.firmwareBranch
    case Pm(p) => PmPacket.Lawful(b64) && ';' !in p.filename && ';' !in p.contentType
    case Pr(p) => true
    case Ps(p) =>
      Args.IsOrder(order, p.params) &&
      forall k <- p.params :: Args.Stable(ft, Args.PercentF, k, p.params[k]) && ';' !in k && ';' !in Args.Render(ft, Args.PercentF, p.params[k])
  }

  /** The frame written for a writable Pa packet reads back with the Pa decoder as the packet. */
  lemma PaWritten(tab: Table, ft: Floats.FloatText, b64: PmPacket.Base64, order: seq<string>, p: PaPacket.Packet)
    requires ClientWritable(ft, b64, order, Pa(p))
    ensures ParsePacketToString(tab, ft, b64, order, Client(Pa(p))).Ok?
    ensures PaPacket.FromPacket(tab, ParsePacketToString(tab, ft, b64, order, Client(Pa(p))).value) == Ok(p)
  {
    PaPacket.RoundTrip(tab, p);
  }

  /** The frame written for a writable Pb packet reads back with the Pb decoder as the packet, its floats reparsed. */
  lemma PbWritten(tab: Table, ft: Floats.FloatText, b64: PmPacket.Base64, order: seq<string>, p: PbPacket.Packet)
    requires ClientWritable(ft, b64, order, Pb(p))
    ensures ParsePacketToString(tab, ft, b64, order, Client(Pb(p))).Ok?
    ensures PbPacket.FromPacket(tab, ft, ParsePacketToString(tab, ft, b64, order, Client(Pb(p))).value) == Ok(PbPacket.Packet(PbPacket.RereadAll(ft, p.advertisements)))
  {
    PbPacket.RoundTrip(tab, ft, p);
  }

  /** The frame written for a writable Pc packet reads back with the Pc decoder as the packet. */
  lemma PcWritten(tab: Table, ft: Floats.FloatText, b64: PmPacket.Base64, order: seq<string>, p: PcPacket.Packet)
    requires ClientWritable(ft, b64, order, Pc(p))
    ensures ParsePacketToString(tab, ft, b64, order, Client(Pc(p))).Ok?
    ensures PcPacket.FromPacket(tab, ParsePacketToString(tab, ft, b64, order, Client(Pc(p))).value) == Ok(p)
  {
    PcPacket.RoundTrip(tab, p);
  }

  /** The frame written for a writable Pd packet reads back with the Pd decoder as the packet, its floats reparsed and absent parts made empty. */
  lemma PdWritten(tab: Table, ft: Floats.FloatText, b64: PmPacket.Base64, order: seq<string>, p: PdPacket.Packet)
    requires ClientWritable(ft, b64, order, Pd(p))
    ensures ParsePacketToString(tab, ft, b64, order, Client(Pd(p))).Ok?
    ensures PdPacket.FromPacket(tab, ft, ParsePacketToString(tab, ft, b64, order, Client(Pd(p))).value) == Ok(PdPacket.Packet(p.timestamp, Some(PdPacket.Reread(ft, p.position)), Some(PdPacket.Reextra(p.extraData))))
  {
    PdPacket.RoundTrip(tab, ft, p, order);
  }

  /** The frame written for a writable Pi packet reads back with the Pi decoder as the packet. */
  lemma PiWritten(tab: Table, ft: Floats.FloatText, b64: PmPacket.Base64, order: seq<string>, p: PiPacket.Packet)
    requires ClientWritable(ft, b64, order, Pi(p))
    ensures ParsePacketToString(tab, ft, b64, order, Client(Pi(p))).Ok?
    ensures PiPacket.FromPacket(tab, ParsePacketToString(tab, ft, b64, order, Client(Pi(p))).value) == Ok(p)
  {
    PiPacket.RoundTrip(tab, p);
  }

  /** The frame written for a writable Pm packet reads back with the Pm decoder as the packet. */
  lemma PmWritten(tab: Table, ft: Floats.FloatText, b64: PmPacket.Base64, order: seq<string>, p: PmPacket.Packet)
    requires ClientWritable(ft, b64, order, Pm(p))
    ensures ParsePacketToString(tab, ft, b64, order, Client(Pm(p))).Ok?
    ensures PmPacket.FromPacket(tab, b64, ParsePacketToString(tab, ft, b64, order, Client(Pm(p))).value) == Ok(p)
  {
    PmPacket.RoundTrip(tab, b64, p);
  }

  /** The frame written for a writable Pr packet reads back with the Pr decoder as the packet. */
  lemma PrWritten(tab: Table, ft: Floats.FloatText, b64: PmPacket.Base64, order: seq<string>, p: PrPacket.Packet)
    requires ClientWritable(ft, b64, order, Pr(p))
    ensures ParsePacketToString(tab, ft, b64, order, Client(Pr(p))).Ok?
    ensures PrPacket.FromPacket(tab, ParsePacketToString(tab, ft, b64, order, Client(Pr(p))).value) == Ok(p)
  {
    PrPacket.RoundTrip(tab, p);
  }

  /** The frame written for a writable Ps packet reads back with the Ps decoder as the packet. */
  lemma PsWritten(tab: Table, ft: Floats.FloatText, b64: PmPacket.Base64, order: seq<string>, p: PsPacket.Packet)
    requires ClientWritable(ft, b64, order, Ps(p))
    ensures ParsePacketToString(tab, ft, b64, order, Client(Ps(p))).Ok?
    ensures PsPacket.FromPacket(tab, ft, ParsePacketToString(tab, ft, b64, order, Client(Ps(p))).value) == Ok(p)
  {
    PsPacket.RoundTrip(tab, ft, p, order);
  }
}
