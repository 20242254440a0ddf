/**
 * The `id:hexbytes` item shared by the C++ BLE manufacturer and service data
 * (cpp/src/ble/ble_manufacturer_data.cpp, cpp/src/ble/ble_service_data.cpp):
 * an identifier in hex, a `:`, then the payload two hex digits per byte.
 * Both classes carry the same code; it is stated once here.
 */
module BleData {
  import opened Results
  import opened Strings
  import opened Numbers

  /**
   * The payload loop: `stoi(data_str.substr(0, 2), nullptr, 16)`, then
   * `data_str = data_str.substr(2)`, over the bytes of the payload (one
   * character per byte, see `ReadItem`). A one-character tail is read, after
   * which `substr(2)` is past the end and throws `std::out_of_range`; a chunk
   * with no leading hex digit throws `std::invalid_argument`. Neither is caught.
   */
  function ReadChunks(s: string): (r: Result<seq<int>, CppError>)
    ensures r.Ok? <==> |s| % 2 == 0 && forall i :: 0 <= i < |s| / 2 ==> Stoi(Chunk(s, i), 16).Ok?
    ensures r.Ok? ==> |r.value| == |s| / 2 &&
                      forall i :: 0 <= i < |s| / 2 ==> Stoi(Chunk(s, i), 16) == Ok(r.value[i])
    ensures r.Err? ==> r.error == InvalidArgument || r.error == OutOfRange
    decreases |s|
  {
    if s == [] then Ok([])
    else if |s| < 2 then
      match Stoi(s, 16)
      case Err(e) => Err(e)
      case Ok(_) => Err(OutOfRange)
    else
      ChunksAfter(s);
      var v :- Stoi(s[..2], 16);
      var rest :- ReadChunks(s[2..]);
      Ok([v] + rest)
  }

  /**
   * `aé` is the bytes 61 C3 A9: the first chunk reads as 10 (`stoi` stops at
   * the first non-digit), and the lone tail A9 has no hex digit.
   */
  lemma AccentPayload()
    ensures ReadChunks(ByteView("a\U{E9}")) == Err(InvalidArgument)
  {
    var v := ByteView("a\U{E9}");
    assert Utf8("a\U{E9}") == [0x61, 0xC3, 0xA9];
    assert v == ['a', '\U{C3}', '\U{A9}'];
    assert v[2..] == ['\U{A9}'];
    assert v[..2] == ['a', '\U{C3}'] && v[..2][1..] == ['\U{C3}'];
    assert !InBase('\U{C3}', 16);
    assert SkipHexPrefix(v[..2], 16) == v[..2];
    assert DigitPrefix(v[..2], 16) == "a";
    assert "a"[..0] == [] && ValueOf("a", 16) == 10;
    assert Stoi(v[..2], 16) == Ok(10);
    assert Stoi(v[2..], 16) == Err(InvalidArgument);
  }

  /** `output << std::setw(2) << byte` for each byte, the stream already in uppercase hex with fill `0`. */
  function WriteChunks(data: seq<int>): (r: string)
    ensures AllUpperHex(r) && AllDigits(r, 16)
  {
    if data == [] then "" else CppHex(data[0], 2) + WriteChunks(data[1..])
  }

  /**
   * `from_packet`: the text before the first `:` is read with
   * `stoi(_, nullptr, 16)`, whose `std::invalid_argument` becomes a
   * MalformedException carrying `what`; the rest is the payload, read in
   * chunks of two bytes (`ByteView`). `find` and `stoi` see the same thing
   * in the characters as in the bytes, since `:`, digits and spaces are
   * ASCII and no byte of a multi-byte character is.
   */
  function ReadItem(raw: string, what: string): (r: Result<(int, seq<int>), CppError>)
    ensures r.Err? ==> !r.error.CrcError?
    ensures ':' !in raw ==> r == Err(Malformed("Invalid packet definition"))
    ensures var pos := FirstIndex(raw, ':');
            pos < |raw| && Stoi(raw[..pos], 16) == Err(InvalidArgument) ==> r == Err(Malformed(what))
    ensures r.Ok? ==> var pos := FirstIndex(raw, ':');
            pos < |raw| && Stoi(raw[..pos], 16) == Ok(r.value.0) &&
            ReadChunks(ByteView(raw[pos + 1..])) == Ok(r.value.1)
    ensures var pos := FirstIndex(raw, ':');
            pos < |raw| && Stoi(raw[..pos], 16).Ok? && ReadChunks(ByteView(raw[pos + 1..])).Err? ==>
              r == Err(ReadChunks(ByteView(raw[pos + 1..])).error)
  {
    var pos := FirstIndex(raw, ':');
    if pos == |raw| then Err(Malformed("Invalid packet definition"))
    else
      var id :- CatchInvalid(Stoi(raw[..pos], 16), what);
      var data :- ReadChunks(ByteView(raw[pos + 1..]));
      Ok((id, data))
  }

  /** `to_packet`: the id in at least four uppercase hex digits, `:`, then the payload. */
  function WriteItem(id: int, data: seq<int>): (r: string)
    ensures ',' !in r && ';' !in r && ':' in r
  {
    var h := CppHex(id, 4);
    var r := h + ":" + WriteChunks(data);
    UpperHexFree(h);
    UpperHexFree(WriteChunks(data));
    assert r[|h|] == ':';
    r
  }

  /** Uppercase hex text holds none of the protocol's separators. */
  lemma UpperHexFree(s: string)
    requires AllUpperHex(s)
    ensures ',' !in s && ';' !in s && ':' !in s
  {
    assert forall i :: 0 <= i < |s| ==> IsUpperHex(s[i]);
  }

  /** Uppercase hex text is ASCII, so its bytes are its characters. */
  lemma UpperHexAscii(s: string)
    requires AllUpperHex(s)
    ensures forall i :: 0 <= i < |s| ==> s[i] as int < 0x80
  {
    assert forall i :: 0 <= i < |s| ==> IsUpperHex(s[i]);
  }

  /** Two digits written for a byte are read back as that byte. */
  lemma {:induction false} ReadWriteChunks(data: seq<int>)
    requires forall b <- data :: 0 <= b < 0x100
    ensures ReadChunks(WriteChunks(data)) == Ok(data)
  {
    if data != [] {
      assert forall b <- data[1..] :: b in data;
      ReadWriteChunks(data[1..]);
      WriteChunksCons(data);
    }
  }

  /** The step of `ReadWriteChunks`: the first byte's two digits, then the rest. */
  lemma WriteChunksCons(data: seq<int>)
    requires data != [] && forall b <- data :: 0 <= b < 0x100
    requires ReadChunks(WriteChunks(data[1..])) == Ok(data[1..])
    ensures ReadChunks(WriteChunks(data)) == Ok(data)
  {
    assert data[0] in data;
    var h := CppHex(data[0], 2);
    ByteHex(data[0]);
    assert WriteChunks(data) == h + WriteChunks(data[1..]);
    ReadChunksStep(h, WriteChunks(data[1..]), data[0], data[1..]);
    assert data == [data[0]] + data[1..];
  }

  /** A byte is written as the two digits `stoi` reads back. */
  lemma ByteHex(b: int)
    requires 0 <= b < 0x100
    ensures |CppHex(b, 2)| == 2 && Stoi(CppHex(b, 2), 16) == Ok(b)
  {
    PowFacts();
    HexWidth(b, 2);
    StoiHex(b, 2);
  }

  /** One two-digit chunk, then the rest. */
  lemma ReadChunksStep(h: string, rest: string, b: int, bs: seq<int>)
    requires |h| == 2 && Stoi(h, 16) == Ok(b) && ReadChunks(rest) == Ok(bs)
    ensures ReadChunks(h + rest) == Ok([b] + bs)
  {
    var s := h + rest;
    assert s[..2] == h && s[2..] == rest;
  }

  /** An id in `0..2^31` and bytes in `0..255` are read back as written. */
  lemma ReadWriteItem(id: int, data: seq<int>, what: string)
    requires 0 <= id < TwoTo31 && forall b <- data :: 0 <= b < 0x100
    ensures ReadItem(WriteItem(id, data), what) == Ok((id, data))
  {
    var h := CppHex(id, 4);
    var w := WriteChunks(data);
    var raw := h + ":" + w;
    UpperHexFree(h);
    CutAt(h, ':', w);
    FirstIndexUnique(raw, ':', |h|);
    StoiHex(id, 4);
    ReadWriteChunks(data);
    assert raw[|h| + 1..] == w;
    UpperHexAscii(w);
    ByteViewAscii(w);
    ReadItemOf(raw, what, |h|, id, data);
  }

  /** `ReadItem` once the `:`, the id and the payload are known. */
  lemma ReadItemOf(raw: string, what: string, pos: nat, id: int, data: seq<int>)
    requires pos < |raw| && FirstIndex(raw, ':') == pos
    requires Stoi(raw[..pos], 16) == Ok(id) && ReadChunks(ByteView(raw[pos + 1..])) == Ok(data)
    ensures ReadItem(raw, what) == Ok((id, data))
  {
  }

  /** An odd number of hex digits: every chunk is read, then the last `substr(2)` throws. */
  lemma {:induction false} OddTail(s: string)
    requires AllUpperHex(s) && AllDigits(s, 16) && |s| % 2 == 1
    ensures ReadChunks(s) == Err(OutOfRange)
  {
    var k := if |s| < 2 then |s| else 2;
    ChunkDigits(s[..k]);
    if |s| >= 2 {
      OddTail(s[2..]);
    }
  }

  /** One or two hex digits are read by `stoi` as their value. */
  lemma ChunkDigits(h: string)
    requires 1 <= |h| <= 2 && AllUpperHex(h) && AllDigits(h, 16)
    ensures Stoi(h, 16) == Ok(ValueOf(h, 16) as int)
  {
    PowFacts();
    ValueOfBound(h, 16);
    assert Pow(16, |h|) <= 0x100;
    StrToIntDigits(h, 16, -TwoTo31, TwoTo31 - 1);
  }
}
