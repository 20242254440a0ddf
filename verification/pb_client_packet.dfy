/**
 * `PbClientPacket` (cpp/src/packets/pb_client_packet.cpp): a batch of BLE
 * advertisements `<Pb>ad;ad;...;CRC</Pb>`, each advertisement being its
 * eleven-token packet. The decoder checks the tags, the token count (one
 * checksum token plus a multiple of eleven) and the checksum, then hands each
 * run of eleven tokens, joined again, to `PbClientPacket::from_packet` itself.
 * Such a run never carries a valid `<Pb>` frame, so only the empty batch
 * decodes.
 */
module PbClientPacket {
  import opened Results
  import opened Strings
  import opened Numbers
  import opened Checksum
  import opened Envelope
  import opened Floats
  import B = BleAdvertisement

  datatype PbPacket = PbPacket(advertisements: seq<B.Advertisement>)

  const BadEnvelope := "Invalid packet definition, should be <Pb>...</Pb>"
  const BadDefinition := "Invalid packet definition"

  /** The text between the tags of a wrapped packet. */
  function Content(raw: string): (c: string)
    requires Wrapped(raw, "Pb")
    ensures raw == Wrap("Pb", c)
  {
    var r := Unwrap(raw, "Pb");
    r.value
  }

  /** The tag check and the token count check: the tokens, or the exception they throw. */
  function Frame(raw: string): (r: Result<seq<string>, CppError>)
    ensures !Wrapped(raw, "Pb") ==> r == Err(Malformed(BadEnvelope))
    ensures Wrapped(raw, "Pb") ==>
              var parts := GetlineSplit(Content(raw), ';');
              if parts == [] || (|parts| - 1) % 11 != 0 then r == Err(Malformed(BadDefinition))
              else r == Ok(parts)
    ensures r.Ok? ==> var n := |r.value|;
              n - 1 == 11 * ((n - 1) / 11) && |Join(r.value[..n - 1], ';')| < |raw|
  {
    if !Wrapped(raw, "Pb") then Err(Malformed(BadEnvelope))
    else
      var content := Content(raw);
      var parts := GetlineSplit(content, ';');
      if parts == [] || (|parts| - 1) % 11 != 0 then Err(Malformed(BadDefinition))
      else
        JoinGetlineSplit(content, ';');
        JoinPrefixLength(parts, |parts| - 1, ';');
        assert |parts| - 1 == 11 * ((|parts| - 1) / 11);
        Ok(parts)
  }

  /**
   * `from_packet`. The checksum (a token with no hex digit counts as 0) is
   * over the tokens before the last, joined by `;`, plus a final `;`.
   * Then every run of eleven tokens goes back through `from_packet`.
   */
  function FromPacket(tab: Table, raw: string): (r: Result<PbPacket, CppError>)
    ensures Frame(raw).Err? ==> r == Err(Frame(raw).error)
    ensures Frame(raw).Ok? && HexOrZero(Frame(raw).value[|Frame(raw).value| - 1]).Err? ==> r == Err(OutOfRange)
    ensures Frame(raw).Ok? ==>
              var parts := Frame(raw).value;
              var calculated := TextCrc(tab, Join(parts[..|parts| - 1], ';') + ";");
              (HexOrZero(parts[|parts| - 1]).Ok? && HexOrZero(parts[|parts| - 1]).value != calculated) ==>
                r == Err(CrcError(HexOrZero(parts[|parts| - 1]).value, calculated))
    ensures Frame(raw).Ok? ==>
              var parts := Frame(raw).value;
              var n := |parts|;
              HexOrZero(parts[n - 1]) == Ok(TextCrc(tab, Join(parts[..n - 1], ';') + ";")) ==>
                var groups := ReadGroups(tab, parts[..n - 1], (n - 1) / 11, |raw|);
                r == if groups.Err? then Err(groups.error) else Ok(PbPacket(groups.value))
    decreases |raw|, 1
  {
    var parts :- Frame(raw);
    var n := |parts|;
    var received :- HexOrZero(parts[n - 1]);
    var calculated := TextCrc(tab, Join(parts[..n - 1], ';') + ";");
    if received != calculated then Err(CrcError(received, calculated))
    else
      var advertisements :- ReadGroups(tab, parts[..n - 1], (n - 1) / 11, |raw|);
      Ok(PbPacket(advertisements))
  }

  /**
   * The loop over runs of eleven tokens: each run joined by `;` and decoded
   * by `from_packet`, the advertisements appended in order; the first
   * exception escapes.
   */
  function ReadGroups(tab: Table, ps: seq<string>, k: nat, limit: nat): (r: Result<seq<B.Advertisement>, CppError>)
    requires |ps| == 11 * k && |Join(ps, ';')| < limit
    ensures k == 0 ==> r == Ok([])
    decreases limit, 0, k
  {
    if k == 0 then Ok([])
    else
      JoinPrefixLength(ps, 11, ';');
      var first :- FromPacket(tab, Join(ps[..11], ';'));
      var rest :- ReadGroups(tab, ps[11..], k - 1, limit);
      Ok(first.advertisements + rest)
  }

  /** The advertisements' packets, each followed by `;`. */
  function Body(tab: Table, ct: CFloatText, ads: seq<B.Advertisement>): string
  {
    if ads == [] then "" else B.ToPacket(tab, ct, ads[0]) + ";" + Body(tab, ct, ads[1..])
  }

  /** `to_packet`: the advertisements, then the checksum of that text as four uppercase hex digits. */
  function ToPacket(tab: Table, ct: CFloatText, p: PbPacket): (r: string)
    ensures Wrapped(r, "Pb")
    ensures var text := Body(tab, ct, p.advertisements);
            Content(r) == text + Hex4(TextCrc(tab, text))
  {
    var text := Body(tab, ct, p.advertisements);
    UnwrapWrap("Pb", text + Hex4(TextCrc(tab, text)));
    Wrap("Pb", text + Hex4(TextCrc(tab, text)))
  }

  // ---------------------------------------------------------------------------
  // Properties

  /**
   * Eleven `;`-free tokens joined by `;` hold ten `;`, so whatever lies
   * between tags splits into ten or eleven tokens: never one more than a
   * multiple of eleven.
   */
  lemma GroupRejected(group: seq<string>)
    requires |group| == 11 && forall t <- group :: ';' !in t
    ensures Frame(Join(group, ';')).Err?
    ensures Frame(Join(group, ';')).error in {Malformed(BadEnvelope), Malformed(BadDefinition)}
  {
    var raw := Join(group, ';');
    if Wrapped(raw, "Pb") {
      var content := Content(raw);
      ContentCount(group);
      PiecesCount(content, ';');
      var n := |GetlineSplit(content, ';')|;
      NotOneMore(n);
      assert Frame(raw) == Err(Malformed(BadDefinition));
    }
  }

  /** The tags hold no `;`, so the content of eleven joined tokens holds ten. */
  lemma ContentCount(group: seq<string>)
    requires |group| == 11 && forall t <- group :: ';' !in t
    requires Wrapped(Join(group, ';'), "Pb")
    ensures var content := Content(Join(group, ';'));
            multiset(content)[';'] == 10 && content != []
  {
    var raw := Join(group, ';');
    var content := Content(raw);
    JoinCount(group, ';');
    assert multiset(raw) == multiset(OpenTag("Pb")) + multiset(content) + multiset(CloseTag("Pb"));
    assert ';' !in OpenTag("Pb") && ';' !in CloseTag("Pb");
    assert ';' in multiset(content);
  }

  /** A run of eleven tokens is rejected, so the loop fails as soon as there is one run. */
  lemma GroupsRejected(tab: Table, ps: seq<string>, k: nat, limit: nat)
    requires |ps| == 11 * k && |Join(ps, ';')| < limit && forall t <- ps :: ';' !in t
    ensures ReadGroups(tab, ps, k, limit).Ok? <==> k == 0
    ensures ReadGroups(tab, ps, k, limit).Err? ==>
              ReadGroups(tab, ps, k, limit).error in {Malformed(BadEnvelope), Malformed(BadDefinition)}
  {
    if k > 0 {
      JoinPrefixLength(ps, 11, ';');
      assert forall t <- ps[..11] :: t in ps;
      GroupRejected(ps[..11]);
    }
  }

  /**
   * Only the empty batch decodes: exactly when the tags are there, the
   * content is a single token, and that token reads as the checksum of `";"`.
   */
  lemma DecodesOnlyEmpty(tab: Table, raw: string)
    ensures FromPacket(tab, raw).Ok? <==>
              Frame(raw).Ok? && |Frame(raw).value| == 1 && HexOrZero(Frame(raw).value[0]) == Ok(TextCrc(tab, ";"))
    ensures FromPacket(tab, raw).Ok? ==> FromPacket(tab, raw).value == PbPacket([])
  {
    if Frame(raw).Ok? {
      var parts := Frame(raw).value;
      if HexOrZero(parts[|parts| - 1]) == Ok(TextCrc(tab, Join(parts[..|parts| - 1], ';') + ";")) {
        AfterChecksum(tab, raw);
      }
    }
  }

  /** The exceptions `from_packet` can throw: the two messages, `out_of_range`, or a checksum mismatch. */
  lemma DecodeErrors(tab: Table, raw: string)
    ensures FromPacket(tab, raw).Err? ==>
              FromPacket(tab, raw).error in {Malformed(BadEnvelope), Malformed(BadDefinition), OutOfRange} ||
              FromPacket(tab, raw).error.CrcError?
  {
    if Frame(raw).Ok? {
      var parts := Frame(raw).value;
      if HexOrZero(parts[|parts| - 1]) == Ok(TextCrc(tab, Join(parts[..|parts| - 1], ';') + ";")) {
        AfterChecksum(tab, raw);
      }
    }
  }

  /** Once the checksum matches, a single token is the empty batch and anything longer is rejected. */
  lemma AfterChecksum(tab: Table, raw: string)
    requires Frame(raw).Ok?
    requires var parts := Frame(raw).value;
             HexOrZero(parts[|parts| - 1]) == Ok(TextCrc(tab, Join(parts[..|parts| - 1], ';') + ";"))
    ensures |Frame(raw).value| == 1 ==> FromPacket(tab, raw) == Ok(PbPacket([]))
    ensures |Frame(raw).value| != 1 ==>
              FromPacket(tab, raw).Err? && FromPacket(tab, raw).error in {Malformed(BadEnvelope), Malformed(BadDefinition)}
  {
    var parts := Frame(raw).value;
    var n := |parts|;
    assert forall t <- parts[..n - 1] :: t in parts;
    assert n - 1 == 11 * ((n - 1) / 11) && ((n - 1) / 11 == 0 <==> n == 1);
    GroupsRejected(tab, parts[..n - 1], (n - 1) / 11, |raw|);
  }

  /** The empty batch encodes as a zero checksum between the tags. */
  lemma EmptyPacket(tab: Table, ct: CFloatText)
    ensures ToPacket(tab, ct, PbPacket([])) == Wrap("Pb", "0000") == "<Pb>0000</Pb>"
  {
    EmptyText(tab, ct);
  }

  lemma EmptyText(tab: Table, ct: CFloatText)
    ensures Content(ToPacket(tab, ct, PbPacket([]))) == "0000"
  {
    CrcEmpty(tab);
    ZeroToken();
    assert Body(tab, ct, []) == "";
  }


  /**
   * The encoder checksums the empty text (0) while the decoder checksums
   * `";"`, so the empty batch round-trips exactly when the checksum of
   * `";"` is 0.
   */
  lemma EmptyRoundTrip(tab: Table, ct: CFloatText)
    ensures FromPacket(tab, ToPacket(tab, ct, PbPacket([]))) ==
              if TextCrc(tab, ";") == 0 then Ok(PbPacket([])) else Err(CrcError(0, TextCrc(tab, ";")))
  {
    var raw := ToPacket(tab, ct, PbPacket([]));
    EmptyFrame(tab, ct);
    ZeroToken();
    DecodesOnlyEmpty(tab, raw);
    assert Join([], ';') + ";" == ";";
  }

  /** The empty batch's encoding frames as the single token `"0000"`. */
  lemma EmptyFrame(tab: Table, ct: CFloatText)
    ensures Frame(ToPacket(tab, ct, PbPacket([]))) == Ok(["0000"])
  {
    EmptyPacket(tab, ct);
    ZeroFrame();
  }

  lemma ZeroFrame()
    ensures Frame(Wrap("Pb", "0000")) == Ok(["0000"])
  {
    UnwrapWrap("Pb", "0000");
    GetlineSplitOne("0000", ';');
  }

  /** A batch with at least one advertisement never decodes from its own encoding. */
  lemma NonEmptyRejected(tab: Table, ct: CFloatText, p: PbPacket)
    requires p.advertisements != []
    ensures FromPacket(tab, ToPacket(tab, ct, p)).Err?
  {
    ManyTokens(tab, ct, p);
    DecodesOnlyEmpty(tab, ToPacket(tab, ct, p));
  }

  lemma ManyTokens(tab: Table, ct: CFloatText, p: PbPacket)
    requires p.advertisements != []
    ensures |GetlineSplit(Content(ToPacket(tab, ct, p)), ';')| >= 2
  {
    var text := Body(tab, ct, p.advertisements);
    var content := Content(ToPacket(tab, ct, p));
    BodyDelimiters(tab, ct, p.advertisements);
    assert multiset(content) == multiset(text) + multiset(Hex4(TextCrc(tab, text)));
    PiecesCount(content, ';');
  }

  /** Each advertisement's packet holds a `;` before its checksum token, and one follows it. */
  lemma BodyDelimiters(tab: Table, ct: CFloatText, ads: seq<B.Advertisement>)
    requires ads != []
    ensures multiset(Body(tab, ct, ads))[';'] >= 2
  {
    var a := B.ToPacket(tab, ct, ads[0]);
    var rest := Body(tab, ct, ads[1..]);
    assert a[|a| - 5] == ';';
    assert multiset(Body(tab, ct, ads)) == multiset(a) + multiset(";") + multiset(rest);
    assert ';' in multiset(a);
  }

  // ---------------------------------------------------------------------------
  // Counting delimiters

  /** `"0000"` is the checksum token of 0 and reads back as 0. */
  lemma ZeroToken()
    ensures Hex4(0) == "0000"
    ensures HexOrZero("0000") == Ok(0)
  {
    var z := "0000";
    assert ValueOf(z, 16) == 0 by {
      assert z[..3] == "000" && "000"[..2] == "00" && "00"[..1] == "0" && "0"[..0] == "";
    }
    Hex4OfValue(z);
    StoiHex(0, 4);
    PowFacts();
  }

  /** A text cut by the C++ split: one token more than it has delimiters, less one for a final delimiter. */
  lemma {:induction false} PiecesCount(s: string, d: char)
    requires s != []
    ensures |GetlineSplit(s, d)| == multiset(s)[d] + 1 - (if s[|s| - 1] == d then 1 else 0)
    decreases |s|
  {
    var i := FirstIndex(s, d);
    if i == |s| {
      assert d !in multiset(s);
    } else {
      var p, rest := s[..i], s[i + 1..];
      CutAround(s, i);
      assert multiset(s) == multiset(p) + multiset([d]) + multiset(rest);
      assert d !in multiset(p);
      if rest != [] {
        PiecesCount(rest, d);
        assert s[|s| - 1] == rest[|rest| - 1];
      }
    }
  }

  /** The delimiters of a join are the ones between its pieces. */
  lemma {:induction false} JoinCount(ts: seq<string>, d: char)
    requires |ts| >= 1 && forall t <- ts :: d !in t
    ensures multiset(Join(ts, d))[d] == |ts| - 1
  {
    assert ts[0] in ts;
    assert d !in multiset(ts[0]);
    if |ts| > 1 {
      assert forall t <- ts[1..] :: t in ts;
      JoinCount(ts[1..], d);
      assert multiset(Join(ts, d)) == multiset(ts[0]) + multiset([d]) + multiset(Join(ts[1..], d));
    }
  }

  lemma NotOneMore(n: int)
    requires n == 10 || n == 11
    ensures (n - 1) % 11 != 0
  {
  }

  /** A text with the delimiter at two positions counts it at least twice. */
  lemma TwoAt(s: string, d: char, i: nat, j: nat)
    requires i < j < |s| && s[i] == d && s[j] == d
    ensures multiset(s)[d] >= 2
  {
    var x, y, z := s[..i], s[i + 1..j], s[j + 1..];
    assert s == x + [d] + y + [d] + z;
    assert multiset(s) == multiset(x) + multiset([d]) + multiset(y) + multiset([d]) + multiset(z);
  }

  /** Both sides of a split of the pieces join to no more text than the whole. */
  lemma JoinPrefixLength(ps: seq<string>, k: nat, d: char)
    requires k <= |ps|
    ensures |Join(ps[..k], d)| <= |Join(ps, d)| && |Join(ps[k..], d)| <= |Join(ps, d)|
  {
    if 0 < k < |ps| {
      JoinAppend(ps[..k], ps[k..], d);
      assert ps[..k] + ps[k..] == ps;
    } else if k == 0 {
      assert ps[k..] == ps;
    } else {
      assert ps[..k] == ps;
    }
  }
}
