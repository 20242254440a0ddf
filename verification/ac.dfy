/**
 * The command queue `<Ac>id;name;args;CRC;id;name;args;CRC;...;CRC</Ac>`
 * (golang/v3/ac.go). Every command carries its own checksum over
 * `id;name;args;`, and the frame's checksum covers all of them.
 */
module AcPacket {
  import opened Results
  import opened Strings
  import opened Numbers
  import opened Checksum
  import opened Envelope
  import opened Args
  import opened Floats

  /** The command id is a Go `int`, 64 bits wide. */
  datatype Command = Command(commandId: Int64, commandName: string, args: ArgMap)

  datatype Packet = Packet(commands: seq<Command>)

  /** The text a command's own checksum covers. */
  function Covered(id: string, name: string, args: string): string {
    id + ";" + name + ";" + args + ";"
  }

  // ---------------------------------------------------------------------------
  // Decoding

  /**
   * One group of four fields: its checksum token (any hex `strconv.ParseUint`
   * accepts, up to 16 bits), the check of that checksum, then the command id.
   */
  function ReadCommand(tab: Table, ft: FloatText, id: string, name: string, args: string, token: string): (r: Result<Command, GoError>)
    ensures r.Ok? <==> ParseUint(token, 16, 16) == Some(TextCrc(tab, Covered(id, name, args))) && Atoi(id).Some?
    ensures ParseUint(token, 16, 16).None? ==> r == Err(BadCrcToken)
    ensures ParseUint(token, 16, 16).Some? && ParseUint(token, 16, 16).value != TextCrc(tab, Covered(id, name, args)) ==>
              r == Err(CrcMismatch(ParseUint(token, 16, 16).value, TextCrc(tab, Covered(id, name, args))))
    ensures r.Ok? ==> Atoi(id) == Some(r.value.commandId) && r.value.commandName == name && r.value.args == ParseArgs(ft, args)
    ensures r.Err? ==> r.error == BadCrcToken || r.error.CrcMismatch? || r.error == BadField("command id")
  {
    match ParseUint(token, 16, 16)
    case None => Err(BadCrcToken)
    case Some(received) =>
      var calculated := TextCrc(tab, Covered(id, name, args));
      if calculated != received then Err(CrcMismatch(received, calculated))
      else
        match Atoi(id)
        case None => Err(BadField("command id"))
        case Some(n) => Ok(Command(n, name, ParseArgs(ft, args)))
  }

  /** The groups of four fields read, in order, as the commands `cs`. */
  predicate ReadsAll(tab: Table, ft: FloatText, parts: seq<string>, cs: seq<Command>)
    decreases |parts|
  {
    if parts == [] then cs == []
    else
      |parts| >= 4 && cs != [] &&
      ReadCommand(tab, ft, parts[0], parts[1], parts[2], parts[3]) == Ok(cs[0]) &&
      ReadsAll(tab, ft, parts[4..], cs[1..])
  }

  /**
   * The groups in order; the first that does not read stops the loop with its
   * error. A short final group cannot occur after `Decode`'s multiple-of-four
   * check and is reported as that check would report it.
   */
  function ReadCommands(tab: Table, ft: FloatText, parts: seq<string>): (r: Result<seq<Command>, GoError>)
    ensures r.Ok? ==> ReadsAll(tab, ft, parts, r.value) && 4 * |r.value| == |parts|
    ensures |parts| >= 4 && ReadCommand(tab, ft, parts[0], parts[1], parts[2], parts[3]).Err? ==>
              r == Err(ReadCommand(tab, ft, parts[0], parts[1], parts[2], parts[3]).error)
    ensures r.Err? ==> r.error == BadCrcToken || r.error.CrcMismatch? || r.error == BadField("command id") ||
                       r.error == BadPartMultiple(4)
    decreases |parts|
  {
    if parts == [] then Ok([])
    else if |parts| < 4 then Err(BadPartMultiple(4))
    else
      var c :- ReadCommand(tab, ft, parts[0], parts[1], parts[2], parts[3]);
      var rest :- ReadCommands(tab, ft, parts[4..]);
      assert ([c] + rest)[1..] == rest;
      Ok([c] + rest)
  }

  /** Groups that read as `cs` are read as `cs`. */
  lemma {:induction false} ReadCommandsComplete(tab: Table, ft: FloatText, parts: seq<string>, cs: seq<Command>)
    requires ReadsAll(tab, ft, parts, cs)
    ensures |parts| == 4 * |cs| && ReadCommands(tab, ft, parts) == Ok(cs)
    decreases |parts|
  {
    if parts != [] {
      ReadCommandsComplete(tab, ft, parts[4..], cs[1..]);
      assert ReadCommand(tab, ft, parts[0], parts[1], parts[2], parts[3]) == Ok(cs[0]);
      assert [cs[0]] + cs[1..] == cs;
    }
  }

  /**
   * An empty field list, then a count that is not a multiple of four, then
   * the groups.
   */
  function Decode(tab: Table, ft: FloatText, parts: seq<string>): (r: Result<Packet, GoError>)
    ensures r == Err(NoCommands) <==> parts == []
    ensures parts != [] && |parts| % 4 != 0 ==> r == Err(BadPartMultiple(4))
    ensures r.Ok? ==> parts != [] && ReadsAll(tab, ft, parts, r.value.commands)
  {
    if |parts| == 0 then Err(NoCommands)
    else if |parts| % 4 != 0 then Err(BadPartMultiple(4))
    else
      var cs :- ReadCommands(tab, ft, parts);
      Ok(Packet(cs))
  }

  /** The frame checksum is checked before any command's own. */
  function FromPacket(tab: Table, ft: FloatText, raw: string): (r: Result<Packet, GoError>)
    ensures r.Ok? ==> Sealed(tab, raw, "Ac", Payload(raw)) && ReadsAll(tab, ft, SealedFields(Payload(raw)), r.value.commands)
    ensures Open(tab, raw, "Ac").Err? ==> r == Err(Open(tab, raw, "Ac").error)
    ensures !Wrapped(raw, "Ac") ==> r == Err(BadEnvelope("Ac"))
  {
    OpenSealed(tab, raw, "Ac");
    var fields :- Open(tab, raw, "Ac");
    Decode(tab, ft, fields)
  }

  /** Splitting always gives at least one field, so the empty-list error is never returned. */
  lemma NoCommandsUnreachable(tab: Table, ft: FloatText, raw: string)
    ensures FromPacket(tab, ft, raw) != Err(NoCommands)
  {
    OpenSealed(tab, raw, "Ac");
    if Open(tab, raw, "Ac").Ok? {
      assert Open(tab, raw, "Ac").value != [];
    }
  }

  lemma MultipleOfFour(k: nat)
    ensures (4 * k) % 4 == 0
  {
  }

  /** Every sealed frame whose groups read as the commands decodes to them. */
  lemma FromPacketComplete(tab: Table, ft: FloatText, raw: string, p: Packet)
    requires Sealed(tab, raw, "Ac", Payload(raw)) && p.commands != []
    requires ReadsAll(tab, ft, SealedFields(Payload(raw)), p.commands)
    ensures FromPacket(tab, ft, raw) == Ok(p)
  {
    var fields := SealedFields(Payload(raw));
    OpenSealed(tab, raw, "Ac");
    ReadCommandsComplete(tab, ft, fields, p.commands);
    assert Open(tab, raw, "Ac") == Ok(fields);
    MultipleOfFour(|p.commands|);
    assert ReadCommands(tab, ft, fields) == Ok(p.commands);
    assert Decode(tab, ft, fields) == Ok(Packet(p.commands));
  }

  /** A frame `Close` makes of `;`-free fields decodes as those fields do. */
  lemma FromClose(tab: Table, ft: FloatText, fields: seq<string>)
    requires |fields| >= 1 && forall t <- fields :: ';' !in t
    ensures FromPacket(tab, ft, Close(tab, "Ac", fields)) == Decode(tab, ft, fields)
  {
    OpenClose(tab, "Ac", fields);
  }

  // ---------------------------------------------------------------------------
  // Encoding

  /** One iteration order per command, for its argument map. */
  predicate Orders(cs: seq<Command>, orders: seq<seq<string>>) {
    |orders| == |cs| && forall i | 0 <= i < |cs| :: IsOrder(orders[i], cs[i].args)
  }

  /** The orders of a queue's tail are the tail of its orders. */
  lemma OrdersTail(cs: seq<Command>, orders: seq<seq<string>>)
    requires Orders(cs, orders) && cs != []
    ensures IsOrder(orders[0], cs[0].args) && Orders(cs[1..], orders[1..])
  {
    forall i | 0 <= i < |cs| - 1 ensures IsOrder(orders[1..][i], cs[1..][i].args) {
      assert orders[1..][i] == orders[i + 1] && cs[1..][i] == cs[i + 1];
    }
  }

  /** `%d;%s;%s;` with the arguments written `key:value` and joined by `,`, then its checksum. */
  function CommandItem(tab: Table, ft: FloatText, c: Command, order: seq<string>): string
    requires IsOrder(order, c.args)
  {
    Seal(tab, Covered(FormatInt(c.commandId), c.commandName, EncodeArgs(ft, PercentV, c.args, order)))
  }

  function Items(tab: Table, ft: FloatText, cs: seq<Command>, orders: seq<seq<string>>): (r: seq<string>)
    requires Orders(cs, orders)
    ensures |r| == |cs|
    decreases |cs|
  {
    if cs == [] then []
    else
      OrdersTail(cs, orders);
      [CommandItem(tab, ft, cs[0], orders[0])] + Items(tab, ft, cs[1..], orders[1..])
  }

  /** The command items joined by `;`, a final `;`, and the checksum of that text. */
  function ToPacket(tab: Table, ft: FloatText, p: Packet, orders: seq<seq<string>>): (r: string)
    requires Orders(p.commands, orders)
    ensures Payload(r) == Join(Items(tab, ft, p.commands, orders), ';') + ";"
    ensures Sealed(tab, r, "Ac", Payload(r)) && Canonical(r)
  {
    CloseSealed(tab, "Ac", Items(tab, ft, p.commands, orders));
    CanonicalClose(tab, "Ac", Items(tab, ft, p.commands, orders));
    Close(tab, "Ac", Items(tab, ft, p.commands, orders))
  }

  /** The four fields a command item splits into. */
  function Group(tab: Table, ft: FloatText, c: Command, order: seq<string>): (r: seq<string>)
    requires IsOrder(order, c.args)
    ensures |r| == 4
  {
    var id, args := FormatInt(c.commandId), EncodeArgs(ft, PercentV, c.args, order);
    [id, c.commandName, args, Hex4(TextCrc(tab, Covered(id, c.commandName, args)))]
  }

  /** A command item is its four fields joined by `;`. */
  lemma GroupJoin(tab: Table, ft: FloatText, c: Command, order: seq<string>)
    requires IsOrder(order, c.args)
    ensures Join(Group(tab, ft, c, order), ';') == CommandItem(tab, ft, c, order)
  {
    var id, args := FormatInt(c.commandId), EncodeArgs(ft, PercentV, c.args, order);
    var covered := Covered(id, c.commandName, args);
    var token := Hex4(TextCrc(tab, covered));
    JoinFour(id, c.commandName, args, token, ';');
    assert Seal(tab, covered) == covered + token;
  }

  /** The fields of all commands, in order. */
  function Flat(tab: Table, ft: FloatText, cs: seq<Command>, orders: seq<seq<string>>): (r: seq<string>)
    requires Orders(cs, orders)
    ensures |r| == 4 * |cs|
    decreases |cs|
  {
    if cs == [] then []
    else
      OrdersTail(cs, orders);
      Group(tab, ft, cs[0], orders[0]) + Flat(tab, ft, cs[1..], orders[1..])
  }

  /** Joining the items is joining their fields. */
  lemma {:induction false} FlatJoin(tab: Table, ft: FloatText, cs: seq<Command>, orders: seq<seq<string>>)
    requires Orders(cs, orders) && cs != []
    ensures Join(Items(tab, ft, cs, orders), ';') == Join(Flat(tab, ft, cs, orders), ';')
    decreases |cs|
  {
    OrdersTail(cs, orders);
    GroupJoin(tab, ft, cs[0], orders[0]);
    var item, g := CommandItem(tab, ft, cs[0], orders[0]), Group(tab, ft, cs[0], orders[0]);
    var rest, restOrders := cs[1..], orders[1..];
    assert Flat(tab, ft, cs, orders) == g + Flat(tab, ft, rest, restOrders);
    if |cs| == 1 {
      assert Items(tab, ft, cs, orders) == [item];
      assert g + Flat(tab, ft, rest, restOrders) == g;
    } else {
      FlatJoin(tab, ft, rest, restOrders);
      JoinCons(item, Items(tab, ft, rest, restOrders), ';');
      JoinAppend(g, Flat(tab, ft, rest, restOrders), ';');
    }
  }

  /** A command the encoder can write so that it reads back. */
  predicate Writable(ft: FloatText, c: Command) {
    ';' !in c.commandName &&
    forall k <- c.args :: Stable(ft, PercentV, k, c.args[k]) && ';' !in k && ';' !in Render(ft, PercentV, c.args[k])
  }

  /** A writable command's fields are `;`-free and read back as the command. */
  lemma GroupReads(tab: Table, ft: FloatText, c: Command, order: seq<string>)
    requires IsOrder(order, c.args) && Writable(ft, c)
    ensures var g := Group(tab, ft, c, order);
            (forall t <- g :: ';' !in t) && ReadCommand(tab, ft, g[0], g[1], g[2], g[3]) == Ok(c)
  {
    var id, args := FormatInt(c.commandId), EncodeArgs(ft, PercentV, c.args, order);
    var token := Hex4(TextCrc(tab, Covered(id, c.commandName, args)));
    FormatIntNoSeparator(c.commandId);
    EncodeArgsFree(ft, PercentV, c.args, order, ';');
    assert ';' !in token by {
      assert forall i | 0 <= i < |token| :: InBase(token[i], 16);
    }
    ParseUintHex4(TextCrc(tab, Covered(id, c.commandName, args)));
    AtoiFormatInt(c.commandId);
    ParseEncode(ft, PercentV, c.args, order);
  }

  /** The fields of writable commands are `;`-free and read back as the commands. */
  lemma {:induction false} FlatReads(tab: Table, ft: FloatText, cs: seq<Command>, orders: seq<seq<string>>)
    requires Orders(cs, orders) && forall c <- cs :: Writable(ft, c)
    ensures (forall t <- Flat(tab, ft, cs, orders) :: ';' !in t) && ReadsAll(tab, ft, Flat(tab, ft, cs, orders), cs)
    decreases |cs|
  {
    if cs != [] {
      var rest, restOrders := cs[1..], orders[1..];
      OrdersTail(cs, orders);
      assert forall c <- rest :: c in cs;
      FlatReads(tab, ft, rest, restOrders);
      assert cs[0] in cs;
      GroupReads(tab, ft, cs[0], orders[0]);
      var g := Group(tab, ft, cs[0], orders[0]);
      var flat := Flat(tab, ft, cs, orders);
      assert flat == g + Flat(tab, ft, rest, restOrders);
      assert flat[4..] == Flat(tab, ft, rest, restOrders);
      assert flat[..4] == g;
    }
  }

  /** A non-empty queue of writable commands survives encoding and decoding. */
  lemma RoundTrip(tab: Table, ft: FloatText, p: Packet, orders: seq<seq<string>>)
    requires Orders(p.commands, orders) && p.commands != [] && forall c <- p.commands :: Writable(ft, c)
    ensures FromPacket(tab, ft, ToPacket(tab, ft, p, orders)) == Ok(p)
  {
    var flat := Flat(tab, ft, p.commands, orders);
    FlatJoin(tab, ft, p.commands, orders);
    CloseSameJoin(tab, "Ac", Items(tab, ft, p.commands, orders), flat);
    FlatDecodes(tab, ft, p.commands, orders);
    FromClose(tab, ft, flat);
  }

  /** The fields of a non-empty queue of writable commands decode as the queue. */
  lemma FlatDecodes(tab: Table, ft: FloatText, cs: seq<Command>, orders: seq<seq<string>>)
    requires Orders(cs, orders) && cs != [] && forall c <- cs :: Writable(ft, c)
    ensures (forall t <- Flat(tab, ft, cs, orders) :: ';' !in t) && Decode(tab, ft, Flat(tab, ft, cs, orders)) == Ok(Packet(cs))
  {
    var flat := Flat(tab, ft, cs, orders);
    FlatReads(tab, ft, cs, orders);
    ReadCommandsComplete(tab, ft, flat, cs);
    MultipleOfFour(|cs|);
  }

  /**
   * An empty queue is written as the text `;`, which reads as one empty
   * field, not a multiple of four, and is rejected.
   */
  lemma EmptyQueueRejected(tab: Table, ft: FloatText)
    ensures FromPacket(tab, ft, ToPacket(tab, ft, Packet([]), [])) == Err(BadPartMultiple(4))
  {
    assert Join(Items(tab, ft, [], []), ';') == Join([""], ';');
    CloseSameJoin(tab, "Ac", Items(tab, ft, [], []), [""]);
    OpenClose(tab, "Ac", [""]);
  }
}
