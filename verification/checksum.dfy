/**
 * The 16-bit frame check sequence every Layrz packet carries
 * (cpp/src/helpers/crc.cpp). It is the table-driven fold of appendix C.2 of
 * RFC 1662: the register starts at 0xFFFF, each byte replaces it by
 * `(fcs >> 8) ^ table[(fcs ^ byte) & 0xFF]`, and the result is the final
 * register XOR 0xFFFF. The 256-entry table itself is a parameter: every
 * statement about packets below holds for whatever table both ends share.
 */
module Checksum {
  import opened Strings

  /** The lookup table `crc_tab`, 256 sixteen-bit entries. */
  type Table = t: seq<bv16> | |t| == 256 witness seq(256, _ => 0)

  const Initial: bv16 := 0xFFFF

  /** The table slot `(fcs ^ b) & 0xFF` the fold reads for byte `b`. */
  function Index(fcs: bv16, b: Byte): (i: nat)
    ensures i < 256
  {
    ((fcs ^ b as bv16) & 0xFF) as int
  }

  /** One byte of the fold. */
  function Step(tab: Table, fcs: bv16, b: Byte): bv16 {
    (fcs >> 8) ^ tab[Index(fcs, b)]
  }

  /** The register after folding `data` into `fcs`, left to right. */
  function Run(tab: Table, fcs: bv16, data: seq<Byte>): bv16
    decreases |data|
  {
    if data == [] then fcs else Run(tab, Step(tab, fcs, data[0]), data[1..])
  }

  /** The register after `data`, starting from 0xFFFF. */
  function Register(tab: Table, data: seq<Byte>): bv16 {
    Run(tab, Initial, data)
  }

  /** The final XOR with 0xFFFF, read as a number. */
  function Finish(fcs: bv16): (r: nat)
    ensures r < 0x1_0000
  {
    (fcs ^ 0xFFFF) as int
  }

  /** `calculate_crc`: the checksum of `data`, a number below 2^16. */
  function Crc(tab: Table, data: seq<Byte>): (r: nat)
    ensures r < 0x1_0000
  {
    Finish(Register(tab, data))
  }

  /** The checksum of the bytes of a text (Go `[]byte(s)`, C++ `std::vector<uint8_t>(s.begin(), s.end())`). */
  function TextCrc(tab: Table, s: string): (r: nat)
    ensures r < 0x1_0000
  {
    Crc(tab, Utf8(s))
  }

  /** Streaming: folding `a + b` is folding `a`, then continuing over `b`. */
  lemma {:induction false} RunAppend(tab: Table, fcs: bv16, a: seq<Byte>, b: seq<Byte>)
    ensures Run(tab, fcs, a + b) == Run(tab, Run(tab, fcs, a), b)
    decreases |a|
  {
    if a == [] {
      assert a + b == b;
    } else {
      assert (a + b)[0] == a[0];
      assert (a + b)[1..] == a[1..] + b;
      RunAppend(tab, Step(tab, fcs, a[0]), a[1..], b);
    }
  }

  lemma RegisterAppend(tab: Table, a: seq<Byte>, b: seq<Byte>)
    ensures Register(tab, a + b) == Run(tab, Register(tab, a), b)
  {
    RunAppend(tab, Initial, a, b);
  }

  /** The empty byte sequence checksums to zero, whatever the table holds. */
  lemma CrcEmpty(tab: Table)
    ensures Crc(tab, []) == 0
    ensures TextCrc(tab, "") == 0
  {
    assert Utf8("") == [];
  }

  /**
   * Appending one `;` to a text changes its checksum exactly when the step for
   * byte 0x3B moves the register: the condition under which a checksum over
   * `s + ";"` can equal one over `s`.
   */
  lemma TextCrcSemicolon(tab: Table, s: string)
    ensures TextCrc(tab, s + ";") == TextCrc(tab, s) <==>
            Step(tab, Register(tab, Utf8(s)), 0x3B) == Register(tab, Utf8(s))
  {
    Utf8Append(s, ";");
    assert Utf8(";") == [0x3B];
    RegisterAppend(tab, Utf8(s), [0x3B]);
    var r := Register(tab, Utf8(s));
    assert Run(tab, r, [0x3B]) == Run(tab, Step(tab, r, 0x3B), []);
    CrcInjective(tab, Utf8(s + ";"), Utf8(s));
  }

  lemma BitsRoundTrip(x: bv16)
    ensures (x as int) as bv16 == x
  {}

  lemma XorTwice(x: bv16)
    ensures (x ^ 0xFFFF) ^ 0xFFFF == x
  {}

  lemma FinishInjective(x: bv16, y: bv16)
    ensures Finish(x) == Finish(y) ==> x == y
  {
    if Finish(x) == Finish(y) {
      BitsRoundTrip(x ^ 0xFFFF);
      BitsRoundTrip(y ^ 0xFFFF);
      assert x ^ 0xFFFF == y ^ 0xFFFF;
      XorTwice(x);
      XorTwice(y);
    }
  }

  /** Two byte sequences have the same checksum exactly when they leave the same register. */
  lemma CrcInjective(tab: Table, a: seq<Byte>, b: seq<Byte>)
    ensures Crc(tab, a) == Crc(tab, b) <==> Register(tab, a) == Register(tab, b)
  {
    FinishInjective(Register(tab, a), Register(tab, b));
  }

  /** The loop of `calculate_crc`, byte by byte. */
  method CalculateCrc(tab: Table, data: seq<Byte>) returns (crc: nat)
    ensures crc == Crc(tab, data)
    ensures crc < 0x1_0000
  {
    var fcs: bv16 := 0xFFFF;
    var i := 0;
    while i < |data|
      invariant 0 <= i <= |data|
      invariant Run(tab, fcs, data[i..]) == Register(tab, data)
    {
      assert data[i..][1..] == data[i + 1..];
      fcs := Step(tab, fcs, data[i]);
      i := i + 1;
    }
    assert data[i..] == [];
    crc := Finish(fcs);
  }
}
