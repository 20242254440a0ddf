/**
 * The pure parts of the TCP transport (golang/v3/tcp.go): the
 * "not initialized" guards, what `Send` writes, the authentication poll of
 * `Connect`, and the reader's framing and dispatch of server packets as a
 * step function over the buffer and the authentication flag.
 *
 * The socket is a flag saying whether `conn` has been set; what the dial
 * returns and what the reader goroutine has done by each poll are
 * parameters.
 */
module Tcp {
  import opened Results
  import opened Checksum
  import Strings
  import Floats
  import PmPacket
  import PaPacket
  import Parser

  /**
   * `TcpComm`. `hasCallback` says whether a callback is set and `connected`
   * whether `conn` points at a connection; the compiled regular expressions
   * are `Envelopes` and `HasClose` below.
   */
  datatype Comm = Comm(host: string, port: int, ident: string, passwd: string,
                       initialized: bool, hasCallback: bool, connected: bool, authenticated: bool)

  /** The zero `TcpComm`, before `New`. */
  const Zero := Comm("", 0, "", "", false, false, false, false)

  /** What Go does when `*p.conn` dereferences a nil pointer. */
  const NilConn := Panic("nil pointer dereference")

  /** `New` sets the fields, clears the callback and the flag, and leaves `conn` as it was. */
  function New(c: Comm, host: string, port: int, ident: string, password: string): (r: Comm)
    ensures r.initialized && !r.hasCallback && !r.authenticated && r.connected == c.connected
    ensures r.host == host && r.port == port && r.ident == ident && r.passwd == password
  {
    Comm(host, port, ident, password, true, false, c.connected, false)
  }

  function SetCallback(c: Comm): (r: (Comm, Result<(), GoError>))
    ensures !c.initialized ==> r == (c, Err(NotInitialized))
    ensures c.initialized ==> r.1.Ok? && r.0 == c.(hasCallback := true)
  {
    if !c.initialized then (c, Err(NotInitialized)) else (c.(hasCallback := true), Ok(()))
  }

  /**
   * `Send`: the encoded packet followed by `"\r\n"`, which is what reaches
   * the socket; the write's own error is dropped, so a sent packet is
   * always reported as a success.
   */
  function Send(tab: Table, ft: Floats.FloatText, b64: PmPacket.Base64, order: seq<string>,
                c: Comm, x: Parser.Outgoing): (r: Result<string, GoError>)
    requires x.Client? ==> Parser.Enumerates(order, x.packet)
    ensures !c.initialized ==> r == Err(NotInitialized)
    ensures c.initialized && x.Other? ==> r == Err(InvalidPacketType)
    ensures c.initialized && x.Client? && !c.connected ==> r == Err(NilConn)
    ensures r.Ok? <==> c.initialized && x.Client? && c.connected
    ensures r.Ok? ==> r.value == Parser.EncodeClient(tab, ft, b64, order, x.packet) + "\r\n"
  {
    if !c.initialized then Err(NotInitialized)
    else
      var data :- Parser.ParsePacketToString(tab, ft, b64, order, x);
      if !c.connected then Err(NilConn) else Ok(data + "\r\n")
  }

  /** `Close`: the connection's own error is dropped. */
  function Close(c: Comm): (r: Result<(), GoError>)
    ensures r.Ok? <==> c.initialized && c.connected
    ensures !c.initialized ==> r == Err(NotInitialized)
  {
    if !c.initialized then Err(NotInitialized) else if !c.connected then Err(NilConn) else Ok(())
  }

  /** The number of one-second waits after which `Connect` gives up: the check at 61 fails. */
  const MaxWaits := 61

  /**
   * The poll loop of `Connect`. `observed(i)` is the flag the `i`-th check
   * sees; the check at count 61 that still sees it unset gives up. The
   * result is the number of waits before the flag was seen.
   */
  method WaitAuthenticated(observed: nat -> bool) returns (r: Result<nat, GoError>)
    ensures r.Ok? ==> r.value <= MaxWaits && observed(r.value) && forall j :: 0 <= j < r.value ==> !observed(j)
    ensures r.Err? ==> r.error == AuthTimeout && forall j :: 0 <= j <= MaxWaits ==> !observed(j)
    ensures r.Ok? <==> exists j :: 0 <= j <= MaxWaits && observed(j)
  {
    var attempts := 0;
    while true
      invariant 0 <= attempts <= MaxWaits
      invariant forall j :: 0 <= j < attempts ==> !observed(j)
      decreases MaxWaits - attempts
    {
      if observed(attempts) {
        return Ok(attempts);
      }
      if attempts > 60 {
        return Err(AuthTimeout);
      }
      attempts := attempts + 1;
    }
  }

  /** What `Connect` does: the state after it, the text written to the socket, and its result. */
  datatype Connected = Connected(comm: Comm, written: string, result: Result<(), GoError>)

  /**
   * `Connect`: clear the flag, dial (`dialed` is whether `net.Dial`
   * succeeded), send a Pa packet of the identity and password, then poll.
   */
  method Connect(tab: Table, ft: Floats.FloatText, b64: PmPacket.Base64, c: Comm, dialed: bool,
                 observed: nat -> bool) returns (r: Connected)
    ensures !c.initialized ==> r == Connected(c, "", Err(NotInitialized))
    ensures c.initialized && !dialed ==> r == Connected(c.(authenticated := false), "", Err(DialFailed))
    ensures c.initialized && dialed ==>
              r.written == PaPacket.ToPacket(tab, PaPacket.Packet(c.ident, c.passwd)) + "\r\n" &&
              r.comm.connected && r.comm.initialized && r.comm.hasCallback == c.hasCallback &&
              (r.result.Ok? <==> exists j :: 0 <= j <= MaxWaits && observed(j)) &&
              (r.result.Err? ==> r.result.error == AuthTimeout) &&
              r.comm.authenticated == r.result.Ok?
  {
    if !c.initialized {
      return Connected(c, "", Err(NotInitialized));
    }
    var d := c.(authenticated := false);
    if !dialed {
      return Connected(d, "", Err(DialFailed));
    }
    d := d.(connected := true);
    var pa := Parser.Client(Parser.Pa(PaPacket.Packet(c.ident, c.passwd)));
    var sent := Send(tab, ft, b64, [], d, pa);
    var waited := WaitAuthenticated(observed);
    if waited.Ok? {
      return Connected(d.(authenticated := true), sent.value, Ok(()));
    }
    return Connected(d, sent.value, Err(waited.error));
  }

  // ---------------------------------------------------------------------------
  // Reader framing

  /** `\w` in Go's regular expressions: ASCII letters, digits and `_`. */
  predicate IsWord(c: char) {
    'a' <= c <= 'z' || 'A' <= c <= 'Z' || '0' <= c <= '9' || c == '_'
  }

  /** `<A\w>` starts at `i`. */
  predicate OpenAt(s: string, i: nat) {
    i + 4 <= |s| && s[i] == '<' && s[i + 1] == 'A' && IsWord(s[i + 2]) && s[i + 3] == '>'
  }

  /** `</A\w>` starts at `i`. */
  predicate CloseAt(s: string, i: nat) {
    i + 5 <= |s| && s[i] == '<' && s[i + 1] == '/' && s[i + 2] == 'A' && IsWord(s[i + 3]) && s[i + 4] == '>'
  }

  /** `endRegExp.Match`: some `</A\w>` occurs. */
  predicate HasClose(s: string) {
    exists i: nat :: i < |s| && CloseAt(s, i)
  }

  /** The first `<A\w>` at or after `from`. */
  function FirstOpen(s: string, from: nat): (r: Option<nat>)
    ensures r.Some? ==> from <= r.value && OpenAt(s, r.value) && forall j: nat :: from <= j < r.value ==> !OpenAt(s, j)
    ensures r.None? ==> forall j: nat :: from <= j ==> !OpenAt(s, j)
    decreases |s| - from
  {
    if from + 4 > |s| then None else if OpenAt(s, from) then Some(from) else FirstOpen(s, from + 1)
  }

  /** The first `</A\w>` at or after `from`. */
  function FirstClose(s: string, from: nat): (r: Option<nat>)
    ensures r.Some? ==> from <= r.value && CloseAt(s, r.value) && forall j: nat :: from <= j < r.value ==> !CloseAt(s, j)
    ensures r.None? ==> forall j: nat :: from <= j ==> !CloseAt(s, j)
    decreases |s| - from
  {
    if from + 5 > |s| then None else if CloseAt(s, from) then Some(from) else FirstClose(s, from + 1)
  }

  /**
   * `splitRegExp.FindAll` on `(<A\w>[\s\S]*?</A\w>)` from `from`: the
   * leftmost opening tag that some closing tag follows, up to the first
   * closing tag after it, then the same again after that match. The letters
   * of the two tags need not agree.
   */
  function Envelopes(s: string, from: nat): (r: seq<string>)
    requires from <= |s|
    ensures forall e <- r :: Single(e)
    decreases |s| - from
  {
    match FirstOpen(s, from)
    case None => []
    case Some(o) =>
      match FirstClose(s, o + 4)
      case None => []
      case Some(c) =>
        SingleSlice(s, o, c);
        [s[o..c + 5]] + Envelopes(s, c + 5)
  }

  /** A text the pattern matches whole: an opening tag at its start and its only closing tag at its end. */
  predicate Single(e: string) {
    |e| >= 9 && OpenAt(e, 0) && CloseAt(e, |e| - 5) && forall j: nat :: j < |e| - 5 ==> !CloseAt(e, j)
  }

  lemma SingleSlice(s: string, o: nat, c: nat)
    requires OpenAt(s, o) && o + 4 <= c && CloseAt(s, c) && forall j: nat :: o + 4 <= j < c ==> !CloseAt(s, j)
    ensures Single(s[o..c + 5])
  {
    var e := s[o..c + 5];
    forall j: nat | j < |e| - 5 ensures !CloseAt(e, j) {
      if j >= 4 {
        assert !CloseAt(s, o + j);
      }
    }
  }

  // ---------------------------------------------------------------------------
  // Reader dispatch

  /** The reader's state between reads: the text received so far and the authentication flag. */
  datatype Reader = Reader(buffer: string, authenticated: bool)

  /** What one read does: the reader's new state and the packets handed to the callback, in order. */
  datatype Stepped = Stepped(reader: Reader, delivered: seq<Parser.ServerPacket>)

  /** A packet the reader gives to the callback: neither As nor Au. */
  predicate ForCallback(p: Parser.ServerPacket) {
    !p.As? && !p.Au?
  }

  /** How the reader decodes one envelope. */
  type Decoder = string -> Result<Parser.ServerPacket, GoError>

  /** The reader's decoder: `handleServerOutput`. */
  function ServerDecoder(tab: Table, ft: Floats.FloatText): Decoder {
    s => Parser.HandleServerOutput(tab, ft, s)
  }

  /** The decoder on each envelope, in order. */
  function Decoded(decode: Decoder, envs: seq<string>): (r: seq<Result<Parser.ServerPacket, GoError>>)
    ensures |r| == |envs| && forall i :: 0 <= i < |envs| ==> r[i] == decode(envs[i])
  {
    if envs == [] then [] else [decode(envs[0])] + Decoded(decode, envs[1..])
  }

  /** Some envelope decodes as As, and every envelope before it decodes. */
  predicate Accepts(ds: seq<Result<Parser.ServerPacket, GoError>>) {
    exists i :: 0 <= i < |ds| && ds[i].Ok? && ds[i].value.As? && forall j :: 0 <= j < i ==> ds[j].Ok?
  }

  /**
   * The loop over the decoded envelopes: the first error ends the loop; As
   * sets the flag, Au is dropped, and anything else goes to the callback
   * when one is set.
   */
  function Dispatch(ds: seq<Result<Parser.ServerPacket, GoError>>, authenticated: bool, hasCallback: bool)
    : (r: (bool, seq<Parser.ServerPacket>))
    ensures authenticated ==> r.0
    ensures forall p <- r.1 :: ForCallback(p)
    ensures !hasCallback ==> r.1 == []
    ensures |r.1| <= |ds|
  {
    if ds == [] then (authenticated, [])
    else
      match ds[0]
      case Err(_) => (authenticated, [])
      case Ok(p) =>
        var rest := Dispatch(ds[1..], authenticated || p.As?, hasCallback);
        (rest.0, Delivered(p, hasCallback) + rest.1)
  }

  /**
   * One read of `chunk`: appended to the buffer, which is kept while it holds
   * no closing tag; otherwise its envelopes are dispatched and it is emptied,
   * dropping any text after the last envelope.
   */
  function Step(decode: Decoder, r: Reader, hasCallback: bool, chunk: string): (s: Stepped)
    ensures s.reader.buffer == [] || !HasClose(s.reader.buffer)
    ensures !HasClose(r.buffer + chunk) ==> s == Stepped(Reader(r.buffer + chunk, r.authenticated), [])
    ensures HasClose(r.buffer + chunk) ==> s.reader.buffer == []
    ensures r.authenticated ==> s.reader.authenticated
    ensures forall p <- s.delivered :: ForCallback(p)
    ensures !hasCallback ==> s.delivered == []
  {
    var messages := r.buffer + chunk;
    if !HasClose(messages) then Stepped(Reader(messages, r.authenticated), [])
    else
      var d := Dispatch(Decoded(decode, Envelopes(messages, 0)), r.authenticated, hasCallback);
      Stepped(Reader("", d.0), d.1)
  }

  // ---------------------------------------------------------------------------
  // Properties

  /** Before `New`, every operation reports that the transport is not initialized. */
  lemma GuardsBeforeNew(tab: Table, ft: Floats.FloatText, b64: PmPacket.Base64, order: seq<string>,
                        x: Parser.Outgoing)
    requires x.Client? ==> Parser.Enumerates(order, x.packet)
    ensures SetCallback(Zero).1 == Err(NotInitialized)
    ensures Send(tab, ft, b64, order, Zero, x) == Err(NotInitialized)
    ensures Close(Zero) == Err(NotInitialized)
  {
  }

  /** After `New` and before any `Connect`, sending a client packet or closing dereferences a nil connection. */
  lemma NilBeforeConnect(tab: Table, ft: Floats.FloatText, b64: PmPacket.Base64, order: seq<string>,
                         host: string, port: int, ident: string, password: string, x: Parser.Outgoing)
    requires x.Client? && Parser.Enumerates(order, x.packet)
    ensures Send(tab, ft, b64, order, New(Zero, host, port, ident, password), x) == Err(NilConn)
    ensures Close(New(Zero, host, port, ident, password)) == Err(NilConn)
  {
  }

  /** A whole envelope is its own single match. */
  lemma {:induction false} EnvelopesOfSingle(e: string)
    requires Single(e)
    ensures Envelopes(e, 0) == [e]
  {
    assert FirstOpen(e, 0) == Some(0);
    FirstCloseIs(e, 4, |e| - 5);
    assert e[0..|e|] == e;
    assert FirstOpen(e, |e|) == None;
  }

  lemma FirstCloseIs(s: string, from: nat, c: nat)
    requires from <= c && CloseAt(s, c) && forall j: nat :: from <= j < c ==> !CloseAt(s, j)
    ensures FirstClose(s, from) == Some(c)
  {
  }

  /** A tag wholly inside `e` is seen the same in `e + f`. */
  lemma TagsInPrefix(e: string, f: string, j: nat)
    requires j + 5 <= |e|
    ensures CloseAt(e + f, j) == CloseAt(e, j)
  {
  }

  /** A tag at `j` in `f` is at `|e| + j` in `e + f`. */
  lemma TagsInSuffix(e: string, f: string, j: nat)
    ensures CloseAt(e + f, |e| + j) == CloseAt(f, j)
    ensures OpenAt(e + f, |e| + j) == OpenAt(f, j)
  {
    var s := e + f;
    if j + 5 <= |f| {
      assert s[|e| + j..|e| + j + 5] == f[j..j + 5];
    } else if j + 4 <= |f| {
      assert s[|e| + j..|e| + j + 4] == f[j..j + 4];
    }
  }

  /**
   * Two envelopes received back to back are split apart again: the pattern
   * matches the first up to its closing tag and then the second.
   */
  lemma TwoEnvelopes(e: string, f: string)
    requires Single(e) && Single(f)
    ensures Envelopes(e + f, 0) == [e, f]
  {
    var s := e + f;
    var c := |e| - 5;
    assert OpenAt(s, 0) by { assert s[..4] == e[..4]; }
    assert FirstOpen(s, 0) == Some(0);
    forall j: nat | 4 <= j < c ensures !CloseAt(s, j) {
      TagsInPrefix(e, f, j);
    }
    TagsInPrefix(e, f, c);
    FirstCloseIs(s, 4, c);
    assert s[0..c + 5] == e;
    ShiftedEnvelopes(e, f);
  }

  /** The matches after a prefix that ends where a match ended are the matches of the rest. */
  lemma ShiftedEnvelopes(e: string, f: string)
    requires Single(f)
    ensures Envelopes(e + f, |e|) == [f]
  {
    var s := e + f;
    var n := |e|;
    TagsInSuffix(e, f, 0);
    assert FirstOpen(s, n) == Some(n);
    ShiftedClose(e, f);
    var c := n + |f| - 5;
    EnvelopesAt(s, n, n, c);
    assert s[n..c + 5] == f;
    EnvelopesEnd(s);
    assert c + 5 == |s|;
    assert Envelopes(s, c + 5) == [];
  }

  /** One match, then the matches after it. */
  lemma EnvelopesAt(s: string, from: nat, o: nat, c: nat)
    requires from <= |s| && FirstOpen(s, from) == Some(o) && FirstClose(s, o + 4) == Some(c)
    ensures Envelopes(s, from) == [s[o..c + 5]] + Envelopes(s, c + 5)
  {
  }

  /** Nothing matches at the end. */
  lemma EnvelopesEnd(s: string)
    ensures Envelopes(s, |s|) == []
  {
    assert FirstOpen(s, |s|) == None;
  }

  lemma ShiftedClose(e: string, f: string)
    requires Single(f)
    ensures FirstClose(e + f, |e| + 4) == Some(|e| + |f| - 5)
  {
    var s := e + f;
    var n := |e|;
    forall j: nat | n + 4 <= j < n + |f| - 5 ensures !CloseAt(s, j) {
      TagsInSuffix(e, f, j - n);
    }
    TagsInSuffix(e, f, |f| - 5);
    FirstCloseIs(s, n + 4, n + |f| - 5);
  }

  /**
   * Dispatching a run of decoded envelopes is dispatching its first part and
   * then the rest from the flag that left, when the first part holds no error.
   */
  lemma {:induction false} DispatchAppend(ds: seq<Result<Parser.ServerPacket, GoError>>,
                                          es: seq<Result<Parser.ServerPacket, GoError>>, auth: bool, hasCallback: bool)
    requires forall d <- ds :: d.Ok?
    ensures var one := Dispatch(ds, auth, hasCallback);
            var two := Dispatch(es, one.0, hasCallback);
            Dispatch(ds + es, auth, hasCallback) == (two.0, one.1 + two.1)
  {
    if ds == [] {
      assert ds + es == es;
      var two := Dispatch(es, auth, hasCallback);
      assert [] + two.1 == two.1;
    } else {
      var p := ds[0].value;
      var a := auth || p.As?;
      assert forall d <- ds[1..] :: d.Ok?;
      DispatchAppend(ds[1..], es, a, hasCallback);
      DispatchCons(p, ds[1..], auth, hasCallback);
      assert [ds[0]] + ds[1..] == ds;
      DispatchCons(p, ds[1..] + es, auth, hasCallback);
      assert [ds[0]] + (ds[1..] + es) == ds + es;
      var x := Delivered(p, hasCallback);
      var one' := Dispatch(ds[1..], a, hasCallback);
      var two' := Dispatch(es, one'.0, hasCallback);
      Strings.ConcatAssoc(x, one'.1, two'.1);
    }
  }

  /** What one decoded packet hands to the callback. */
  function Delivered(p: Parser.ServerPacket, hasCallback: bool): seq<Parser.ServerPacket> {
    if hasCallback && ForCallback(p) then [p] else []
  }

  /** Dispatching a decoded packet and then the rest. */
  lemma DispatchCons(p: Parser.ServerPacket, ds: seq<Result<Parser.ServerPacket, GoError>>, auth: bool,
                     hasCallback: bool)
    ensures var rest := Dispatch(ds, auth || p.As?, hasCallback);
            Dispatch([Ok(p)] + ds, auth, hasCallback) == (rest.0, Delivered(p, hasCallback) + rest.1)
  {
    assert ([Ok(p)] + ds)[1..] == ds;
  }

  /** The reader ends up authenticated exactly when it was, or an As envelope comes before any error. */
  lemma {:induction false} DispatchAuthenticates(ds: seq<Result<Parser.ServerPacket, GoError>>, auth: bool,
                                                 hasCallback: bool)
    ensures Dispatch(ds, auth, hasCallback).0 <==> auth || Accepts(ds)
  {
    if ds != [] && ds[0].Ok? {
      var a := auth || ds[0].value.As?;
      DispatchAuthenticates(ds[1..], a, hasCallback);
      if Accepts(ds[1..]) {
        var i :| 0 <= i < |ds[1..]| && ds[1..][i].Ok? && ds[1..][i].value.As? && forall j :: 0 <= j < i ==> ds[1..][j].Ok?;
        assert ds[i + 1] == ds[1..][i];
        assert forall j :: 0 <= j < i + 1 ==> ds[j].Ok? by {
          forall j | 0 <= j < i + 1 ensures ds[j].Ok? {
            if j > 0 { assert ds[j] == ds[1..][j - 1]; }
          }
        }
      }
      if Accepts(ds) && !ds[0].value.As? {
        var i :| 0 <= i < |ds| && ds[i].Ok? && ds[i].value.As? && forall j :: 0 <= j < i ==> ds[j].Ok?;
        assert i > 0;
        assert ds[1..][i - 1] == ds[i];
        assert forall j :: 0 <= j < i - 1 ==> ds[1..][j].Ok? by {
          forall j | 0 <= j < i - 1 ensures ds[1..][j].Ok? {
            assert ds[1..][j] == ds[j + 1];
          }
        }
      }
      if ds[0].value.As? {
        assert Accepts(ds) by { assert ds[0].Ok? && ds[0].value.As?; }
      }
    }
  }

  /** Once an envelope fails to decode, nothing after it is dispatched. */
  lemma {:induction false} DispatchStops(ds: seq<Result<Parser.ServerPacket, GoError>>, e: GoError,
                                         es: seq<Result<Parser.ServerPacket, GoError>>, auth: bool, hasCallback: bool)
    ensures Dispatch(ds + [Err(e)] + es, auth, hasCallback) == Dispatch(ds, auth, hasCallback) ||
            exists i :: 0 <= i < |ds| && ds[i].Err?
    ensures (forall d <- ds :: d.Ok?) ==> Dispatch(ds + [Err(e)] + es, auth, hasCallback) == Dispatch(ds, auth, hasCallback)
  {
    if forall d <- ds :: d.Ok? {
      DispatchAppend(ds, [Err(e)] + es, auth, hasCallback);
      assert ds + [Err(e)] + es == ds + ([Err(e)] + es);
      var rest := Dispatch(ds, auth, hasCallback);
      assert Dispatch([Err(e)] + es, rest.0, hasCallback) == (rest.0, []);
      assert rest.1 + [] == rest.1;
    }
  }

  /**
   * An envelope that arrives in two reads, the first holding no closing tag,
   * is dispatched exactly as if it had arrived in one.
   */
  lemma FragmentedEnvelope(decode: Decoder, auth: bool, hasCallback: bool, a: string, b: string)
    requires !HasClose(a)
    ensures Step(decode, Step(decode, Reader("", auth), hasCallback, a).reader, hasCallback, b) ==
            Step(decode, Reader("", auth), hasCallback, a + b)
  {
    assert "" + a == a;
    assert "" + (a + b) == a + b;
  }

  /**
   * Two envelopes read together are dispatched in order when the first
   * decodes: the same flag and the same callbacks as reading them one at a
   * time.
   */
  lemma CoalescedEnvelopes(decode: Decoder, auth: bool, hasCallback: bool, e: string, f: string)
    requires Single(e) && Single(f) && decode(e).Ok?
    ensures var one := Step(decode, Reader("", auth), hasCallback, e);
            var two := Step(decode, one.reader, hasCallback, f);
            Step(decode, Reader("", auth), hasCallback, e + f) == Stepped(two.reader, one.delivered + two.delivered)
  {
    var one := Dispatch([decode(e)], auth, hasCallback);
    StepSingle(decode, Reader("", auth), hasCallback, e);
    StepSingle(decode, Reader("", one.0), hasCallback, f);
    StepTwo(decode, auth, hasCallback, e, f);
    DispatchAppend([decode(e)], [decode(f)], auth, hasCallback);
    assert [decode(e)] + [decode(f)] == [decode(e), decode(f)];
  }

  /** A read of one whole envelope into an empty buffer dispatches just that envelope. */
  lemma StepSingle(decode: Decoder, r: Reader, hasCallback: bool, e: string)
    requires Single(e) && r.buffer == []
    ensures var d := Dispatch([decode(e)], r.authenticated, hasCallback);
            Step(decode, r, hasCallback, e) == Stepped(Reader("", d.0), d.1)
  {
    SingleCloses(e);
    assert r.buffer + e == e;
    EnvelopesOfSingle(e);
    StepDispatches(decode, r, hasCallback, e, [e]);
    assert Decoded(decode, [e]) == [decode(e)];
  }

  /** A read of two whole envelopes into an empty buffer dispatches both, in order. */
  lemma StepTwo(decode: Decoder, auth: bool, hasCallback: bool, e: string, f: string)
    requires Single(e) && Single(f)
    ensures var d := Dispatch([decode(e), decode(f)], auth, hasCallback);
            Step(decode, Reader("", auth), hasCallback, e + f) == Stepped(Reader("", d.0), d.1)
  {
    SingleCloses2(e, f);
    TwoEnvelopes(e, f);
    assert "" + (e + f) == e + f;
    StepDispatches(decode, Reader("", auth), hasCallback, e + f, [e, f]);
    DecodedTwo(decode, e, f);
  }

  /** A read that completes a closing tag dispatches the buffer's envelopes and empties it. */
  lemma StepDispatches(decode: Decoder, r: Reader, hasCallback: bool, chunk: string, envs: seq<string>)
    requires HasClose(r.buffer + chunk) && Envelopes(r.buffer + chunk, 0) == envs
    ensures var d := Dispatch(Decoded(decode, envs), r.authenticated, hasCallback);
            Step(decode, r, hasCallback, chunk) == Stepped(Reader("", d.0), d.1)
  {
  }

  lemma DecodedTwo(decode: Decoder, e: string, f: string)
    ensures Decoded(decode, [e, f]) == [decode(e), decode(f)]
  {
  }

  /** When the first envelope of two fails to decode, the second is never dispatched and the buffer is emptied. */
  lemma FailureAbandonsRest(decode: Decoder, auth: bool, hasCallback: bool, e: string, f: string)
    requires Single(e) && Single(f) && decode(e).Err?
    ensures Step(decode, Reader("", auth), hasCallback, e + f) == Stepped(Reader("", auth), [])
  {
    StepTwo(decode, auth, hasCallback, e, f);
  }

  /** An As envelope authenticates the reader and is not handed to the callback. */
  lemma AcceptedAuthenticates(decode: Decoder, r: Reader, hasCallback: bool, e: string)
    requires Single(e) && r.buffer == [] && decode(e).Ok? && decode(e).value.As?
    ensures Step(decode, r, hasCallback, e) == Stepped(Reader("", true), [])
  {
    StepSingle(decode, r, hasCallback, e);
    DispatchCons(decode(e).value, [], r.authenticated, hasCallback);
    assert [decode(e)] == [Ok(decode(e).value)] + [];
  }

  lemma SingleCloses(e: string)
    requires Single(e)
    ensures HasClose(e)
  {
    assert CloseAt(e, |e| - 5);
  }

  lemma SingleCloses2(e: string, f: string)
    requires Single(e)
    ensures HasClose(e + f)
  {
    TagsInPrefix(e, f, |e| - 5);
  }
}
