/**
 * The Bluetooth device list `<Ab>mac:model;mac:model;...;CRC</Ab>`
 * (golang/v2/ab.go). On the wire a MAC address is its hex digits without
 * separators; in the packet it is written with a `:` between byte pairs.
 */
module AbPacket {
  import opened Results
  import opened Strings
  import opened Checksum
  import opened Envelope

  datatype Device = Device(macAddress: string, model: string)

  datatype Packet = Packet(devices: seq<Device>)

  // ---------------------------------------------------------------------------
  // MAC addresses

  /**
   * The decoder's pairing loop, which walks the bytes of the text: two
   * bytes at a time with `:` between pairs (`Strings.PairBytes`). On an odd
   * number of bytes the last slice runs past the end, which panics in Go.
   * When a pair boundary falls inside a multi-byte character the bytes Go
   * builds are not UTF-8, and no text of the model holds them: that case is
   * the error `NotText`.
   */
  function ColonMac(s: string): (r: Result<string, GoError>)
    ensures r.Ok? <==> Pairable(s)
    ensures r.Ok? ==> Utf8(r.value) == PairBytes(Utf8(s))
    ensures |Utf8(s)| % 2 == 1 ==> r.Err? && r.error.Panic?
    ensures |Utf8(s)| % 2 == 0 && r.Err? ==> r.error == GoError.NotText
  {
    if |Utf8(s)| % 2 == 1 then Err(Panic("slice bounds out of range"))
    else
      PairTextText(s);
      match PairText(s)
      case None => Err(GoError.NotText)
      case Some(m) => Ok(m)
  }

  /** The bytes of `mac` are even in number, and pairing them builds UTF-8 text. */
  predicate Pairable(mac: string) {
    |Utf8(mac)| % 2 == 0 && Utf8Shaped(PairBytes(Utf8(mac)))
  }

  /** Pairing only inserts `:`. */
  lemma ColonMacText(s: string)
    requires ColonMac(s).Ok?
    ensures RemoveAll(ColonMac(s).value, ':') == RemoveAll(s, ':')
  {
    PairTextRemoveAll(s);
  }

  lemma {:induction false} PairTextRemoveAll(s: string)
    requires PairText(s).Some?
    ensures RemoveAll(PairText(s).value, ':') == RemoveAll(s, ':')
    decreases |s|
  {
    var k := PairUnit(s);
    if s != [] && k < |s| {
      assert PairText(s).value == s[..k] + ":" + PairText(s[k..]).value;
      PairTextRemoveAll(s[k..]);
      PairRemoveAll(s, k, PairText(s[k..]).value);
    }
  }

  /** One pairing step, seen through `RemoveAll`. */
  lemma PairRemoveAll(s: string, k: nat, rest: string)
    requires k < |s|
    ensures RemoveAll(s[..k] + ":" + rest, ':') == RemoveAll(s[..k], ':') + RemoveAll(rest, ':')
    ensures RemoveAll(s, ':') == RemoveAll(s[..k], ':') + RemoveAll(s[k..], ':')
  {
    var p := s[..k];
    assert s == p + s[k..];
    RemoveAllAppend(p, s[k..], ':');
    ColonRemoved(p, rest);
  }

  /** A `:` between two texts disappears. */
  lemma ColonRemoved(p: string, rest: string)
    ensures RemoveAll(p + ":" + rest, ':') == RemoveAll(p, ':') + RemoveAll(rest, ':')
  {
    var q := p + ":";
    var c := RemoveAll(":", ':');
    assert c == [];
    RemoveAllAppend(p, ":", ':');
    assert RemoveAll(q, ':') == RemoveAll(p, ':');
    RemoveAllAppend(q, rest, ':');
  }

  /** On `:`-free text, a pairing that succeeds gives the packet's form. */
  lemma ColonMacForm(s: string)
    requires ':' !in s && ColonMac(s).Ok?
    ensures ColonForm(ColonMac(s).value)
    ensures s != [] ==> ColonMac(s).value != []
  {
    PairTextForm(s);
  }

  lemma {:induction false} PairTextForm(s: string)
    requires ':' !in s && PairText(s).Some?
    ensures ColonForm(PairText(s).value)
    decreases |s|
  {
    var k := PairUnit(s);
    if s != [] && k < |s| {
      assert ':' !in s[k..] by {
        forall i | 0 <= i < |s[k..]| ensures s[k..][i] != ':' {
          assert s[k..][i] == s[k + i];
        }
      }
      PairTextForm(s[k..]);
      var rest := PairText(s[k..]).value;
      var m := s[..k] + ":" + rest;
      assert PairText(s).value == m;
      assert m[..k] == s[..k] && m[k] == ':' && m[k + 1..] == rest;
      assert ':' !in m[..k] by {
        forall i | 0 <= i < k ensures m[..k][i] != ':' {
          assert m[..k][i] == s[i];
        }
      }
      PairUnitPrefix(s, m);
      ColonFormCons(m, k);
    } else if s != [] {
      assert s[..k] == s;
    }
  }

  /**
   * A MAC address in the packet's form: pairs of bytes separated by `:`,
   * where each pair is one two-byte character or two one-byte characters
   * other than `:`.
   */
  predicate ColonForm(m: string)
    decreases |m|
  {
    var k := PairUnit(m);
    m == "" ||
    (k > 0 && ':' !in m[..k] &&
     (|m| == k || (|m| > k + 1 && m[k] == ':' && ColonForm(m[k + 1..]))))
  }

  /** The packet's form, one pair at a time. */
  lemma ColonFormCons(m: string, k: nat)
    requires PairUnit(m) == k > 0 && ':' !in m[..k]
    requires |m| > k + 1 && m[k] == ':' && ColonForm(m[k + 1..])
    ensures ColonForm(m)
  {
  }

  /** Dropping the separators and pairing again gives back a MAC address in the packet's form. */
  lemma {:induction false} ColonMacRemoveAll(m: string)
    requires ColonForm(m)
    ensures |Utf8(RemoveAll(m, ':'))| % 2 == 0
    ensures ColonMac(RemoveAll(m, ':')) == Ok(m)
    decreases |m|
  {
    PairTextRemoveAllForm(m);
  }

  lemma {:induction false} PairTextRemoveAllForm(m: string)
    requires ColonForm(m)
    ensures |Utf8(RemoveAll(m, ':'))| % 2 == 0
    ensures PairText(RemoveAll(m, ':')) == Some(m)
    decreases |m|
  {
    var k := PairUnit(m);
    if m == "" {
    } else if |m| == k {
      PairWhole(m);
    } else {
      var rest := m[k + 1..];
      PairTextRemoveAllForm(rest);
      PairFirst(m, k, rest);
    }
  }

  /** The first pair of `m`, then the pairs of the rest already put back. */
  lemma PairFirst(m: string, k: nat, rest: string)
    requires PairUnit(m) == k > 0 && ':' !in m[..k]
    requires |m| > k + 1 && m[k] == ':' && rest == m[k + 1..]
    requires |Utf8(RemoveAll(rest, ':'))| % 2 == 0 && PairText(RemoveAll(rest, ':')) == Some(rest)
    ensures |Utf8(RemoveAll(m, ':'))| % 2 == 0
    ensures PairText(RemoveAll(m, ':')) == Some(m)
  {
    ColonAt(m, k, rest);
    RemoveAllPair(m, k, rest);
    PairBack(m, k, rest, RemoveAll(rest, ':'));
  }

  /** The text around a `:` at `k`. */
  lemma ColonAt(m: string, k: nat, rest: string)
    requires k < |m| && m[k] == ':' && rest == m[k + 1..]
    ensures m == m[..k] + ":" + rest
  {
  }

  /** A MAC address of a single pair pairs to itself. */
  lemma PairWhole(m: string)
    requires PairUnit(m) == |m| > 0 && ':' !in m
    ensures |Utf8(RemoveAll(m, ':'))| % 2 == 0
    ensures PairText(RemoveAll(m, ':')) == Some(m)
  {
    assert m[..|m|] == m;
    PrefixBytes(m);
  }

  /** Removing the separators after the first pair. */
  lemma RemoveAllPair(m: string, k: nat, rest: string)
    requires |m| > k + 1 && ':' !in m[..k] && m[k] == ':' && rest == m[k + 1..]
    ensures RemoveAll(m, ':') == m[..k] + RemoveAll(rest, ':')
  {
    ColonAt(m, k, rest);
    ColonRemoved(m[..k], rest);
  }

  /** Pairing `m[..k] + tail` puts back the `:` after `m[..k]`. */
  lemma PairBack(m: string, k: nat, rest: string, tail: string)
    requires PairUnit(m) == k > 0 && |m| > k + 1 && m == m[..k] + ":" + rest
    requires |Utf8(tail)| % 2 == 0 && PairText(tail) == Some(rest) && rest != []
    ensures |Utf8(m[..k] + tail)| % 2 == 0 && PairText(m[..k] + tail) == Some(m)
  {
    var s := m[..k] + tail;
    assert s[..k] == m[..k] && s[k..] == tail;
    PairUnitPrefix(m, s);
    PrefixBytes(s);
    PairTextCons(s, rest);
  }

  // ---------------------------------------------------------------------------
  // Decoding

  /** One `mac:model` item: exactly one `:`, then the MAC pairing. */
  function ReadDevice(part: string): (r: Result<Device, GoError>)
    ensures r.Ok? <==> |Split(part, ':')| == 2 && Pairable(Split(part, ':')[0])
    ensures |Split(part, ':')| != 2 ==> r == Err(BadDefinition("device"))
    ensures |Split(part, ':')| == 2 && |Utf8(Split(part, ':')[0])| % 2 == 1 ==> r.Err? && r.error.Panic?
    ensures r.Ok? ==> ColonMac(Split(part, ':')[0]) == Ok(r.value.macAddress) &&
                      r.value.model == Split(part, ':')[1]
  {
    var sub := Split(part, ':');
    if |sub| != 2 then Err(BadDefinition("device"))
    else
      var mac :- ColonMac(sub[0]);
      Ok(Device(mac, sub[1]))
  }

  /** The items in order; the first that does not read stops the loop with its error. */
  function ReadDevices(parts: seq<string>): (r: Result<seq<Device>, GoError>)
    ensures r.Ok? <==> forall i | 0 <= i < |parts| :: ReadDevice(parts[i]).Ok?
    ensures r.Ok? ==> |r.value| == |parts| && forall i | 0 <= i < |parts| :: ReadDevice(parts[i]) == Ok(r.value[i])
    ensures r.Err? ==> exists i | 0 <= i < |parts| ::
              (forall j | 0 <= j < i :: ReadDevice(parts[j]).Ok?) && ReadDevice(parts[i]) == Err(r.error)
  {
    ReadEach(parts, ReadDevice)
  }

  /** The fields read as the packet `p`. */
  predicate Reads(fields: seq<string>, p: Packet) {
    |fields| == |p.devices| && forall i | 0 <= i < |fields| :: ReadDevice(fields[i]) == Ok(p.devices[i])
  }

  /** The checksum is checked before the items are read. */
  function FromPacket(tab: Table, raw: string): (r: Result<Packet, GoError>)
    ensures r.Ok? ==> Sealed(tab, raw, "Ab", Payload(raw)) && Reads(SealedFields(Payload(raw)), r.value)
    ensures Open(tab, raw, "Ab").Err? ==> r == Err(Open(tab, raw, "Ab").error)
    ensures !Wrapped(raw, "Ab") ==> r == Err(BadEnvelope("Ab"))
  {
    OpenSealed(tab, raw, "Ab");
    var fields :- Open(tab, raw, "Ab");
    var devices :- ReadDevices(fields);
    Ok(Packet(devices))
  }

  /** Every sealed frame whose items read as `p` decodes to `p`. */
  lemma FromPacketComplete(tab: Table, raw: string, p: Packet)
    requires Sealed(tab, raw, "Ab", Payload(raw)) && Reads(SealedFields(Payload(raw)), p)
    ensures FromPacket(tab, raw) == Ok(p)
  {
    OpenSealed(tab, raw, "Ab");
    ReadDevicesAll(SealedFields(Payload(raw)), p.devices);
  }

  // ---------------------------------------------------------------------------
  // Encoding

  /** `mac:model` with every `:` of the MAC address removed. */
  function Item(d: Device): string {
    RemoveAll(d.macAddress, ':') + ":" + d.model
  }

  function Items(devices: seq<Device>): (r: seq<string>)
    ensures |r| == |devices| && forall i | 0 <= i < |devices| :: r[i] == Item(devices[i])
  {
    seq(|devices|, i requires 0 <= i < |devices| => Item(devices[i]))
  }

  /** The items joined by `;`, a final `;`, and the checksum of that text. */
  function ToPacket(tab: Table, p: Packet): (r: string)
    ensures Payload(r) == Join(Items(p.devices), ';') + ";"
    ensures Sealed(tab, r, "Ab", Payload(r)) && Canonical(r)
  {
    CloseSealed(tab, "Ab", Items(p.devices));
    CanonicalClose(tab, "Ab", Items(p.devices));
    Close(tab, "Ab", Items(p.devices))
  }

  /** A device the encoder can write so that it reads back. */
  predicate Writable(d: Device) {
    ColonForm(d.macAddress) && ';' !in d.macAddress && ':' !in d.model && ';' !in d.model
  }

  /** A writable device's item reads back as the device. */
  lemma ItemReads(d: Device)
    requires Writable(d)
    ensures ';' !in Item(d) && ReadDevice(Item(d)) == Ok(d)
  {
    var mac := RemoveAll(d.macAddress, ':');
    assert ';' !in mac by {
      RemoveAllKeeps(d.macAddress, ':', ';');
    }
    SplitConsPiece(mac, ':', d.model);
    SplitNoDelimiter(d.model, ':');
    ColonMacRemoveAll(d.macAddress);
  }

  /** A non-empty list of writable devices survives encoding and decoding. */
  lemma RoundTrip(tab: Table, p: Packet)
    requires |p.devices| >= 1 && forall d <- p.devices :: Writable(d)
    ensures FromPacket(tab, ToPacket(tab, p)) == Ok(p)
  {
    var items := Items(p.devices);
    forall i | 0 <= i < |items|
      ensures ';' !in items[i] && ReadDevice(items[i]) == Ok(p.devices[i])
    {
      ItemReads(p.devices[i]);
    }
    OpenClose(tab, "Ab", items);
    ReadDevicesAll(items, p.devices);
  }

  /** Items that each read as the matching device read as the list. */
  lemma ReadDevicesAll(parts: seq<string>, ds: seq<Device>)
    requires |parts| == |ds| && forall i | 0 <= i < |parts| :: ReadDevice(parts[i]) == Ok(ds[i])
    ensures ReadDevices(parts) == Ok(ds)
  {
    var r := ReadDevices(parts);
    assert r.Ok?;
    var v := r.value;
    forall i | 0 <= i < |ds| ensures v[i] == ds[i] {
      assert ReadDevice(parts[i]) == Ok(v[i]);
    }
    assert v == ds;
  }

  /**
   * An empty list is written as the text `;`, which reads as one empty
   * item without a `:`, and is rejected.
   */
  lemma EmptyListRejected(tab: Table)
    ensures FromPacket(tab, ToPacket(tab, Packet([]))) == Err(BadDefinition("device"))
  {
    assert Join(Items([]), ';') == Join([""], ';');
    CloseSameJoin(tab, "Ab", Items([]), [""]);
    OpenClose(tab, "Ab", [""]);
    SplitNoDelimiter("", ':');
  }

  /** A MAC text of an odd number of bytes makes the decoder's pairing loop panic. */
  lemma OddMacPanics(mac: string, model: string)
    requires ':' !in mac && ':' !in model && |Utf8(mac)| % 2 == 1
    ensures ReadDevice(mac + ":" + model).Err? && ReadDevice(mac + ":" + model).error.Panic?
  {
    MacError(mac, model);
  }

  /**
   * A pair boundary inside `é` (bytes C3 A9): Go builds the bytes
   * `a` C3 `:` A9 `b`, which are no UTF-8 text.
   */
  lemma SplitCharacter()
    ensures ReadDevice("a\U{E9}b:m") == Err(GoError.NotText)
  {
    SplitCharacterMac();
    MacError("a\U{E9}b", "m");
    assert "a\U{E9}b" + ":" + "m" == "a\U{E9}b:m";
  }

  /** A `mac:model` item fails exactly as the pairing of its MAC text does. */
  lemma MacError(mac: string, model: string)
    requires ':' !in mac && ':' !in model && ColonMac(mac).Err?
    ensures ReadDevice(mac + ":" + model) == Err(ColonMac(mac).error)
  {
    SplitConsPiece(mac, ':', model);
    SplitNoDelimiter(model, ':');
  }

  lemma SplitCharacterMac()
    ensures ColonMac("a\U{E9}b") == Err(GoError.NotText)
  {
    var mac := "a\U{E9}b";
    assert mac[1..][1..][1..] == [];
    assert Utf8(mac[2..]) == [0x62];
    assert Utf8(mac[1..]) == [0xC3, 0xA9, 0x62];
    assert Utf8(mac) == [0x61, 0xC3, 0xA9, 0x62];
    assert PairUnit(mac) == 0;
  }
}
