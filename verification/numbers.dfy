/**
 * Integer text: the digit strings Go's `strconv` and `fmt` and the C++
 * `std::stoi`/`std::stoll` and iostream manipulators read and write.
 * Floating-point values are never numbers here: only the syntax their
 * parsers accept is modelled.
 */
module Numbers {
  import opened Results
  import opened Strings

  const TwoTo31: int := 0x8000_0000
  const TwoTo63: int := 0x8000_0000_0000_0000

  /** Go `int64` (and Go `int`, which is 64 bits wide on the targets of this protocol). */
  type Int64 = x: int | -TwoTo63 <= x < TwoTo63
  /** C++ `int`. */
  type Int32 = x: int | -TwoTo31 <= x < TwoTo31

  /** The two radices the protocol uses. */
  type Base = b: nat | b == 10 || b == 16 witness 10

  function Pow(b: nat, n: nat): (r: int)
    ensures r >= 0 && (b > 0 ==> r > 0)
  {
    if n == 0 then 1 else b * Pow(b, n - 1)
  }

  // ---------------------------------------------------------------------------
  // Digits

  predicate IsDecimal(c: char) { '0' <= c <= '9' }

  predicate IsHex(c: char) { IsDecimal(c) || 'a' <= c <= 'f' || 'A' <= c <= 'F' }

  /** A digit as `%X` and `std::uppercase << std::hex` write it. */
  predicate IsUpperHex(c: char) { IsDecimal(c) || 'A' <= c <= 'F' }

  predicate InBase(c: char, base: Base) {
    if base == 10 then IsDecimal(c) else IsHex(c)
  }

  predicate AllDigits(s: string, base: Base) {
    forall i :: 0 <= i < |s| ==> InBase(s[i], base)
  }

  predicate AllUpperHex(s: string) {
    forall i :: 0 <= i < |s| ==> IsUpperHex(s[i])
  }

  function DigitValue(c: char): (v: nat)
    requires IsHex(c)
    ensures v < 16
    ensures IsDecimal(c) <==> v < 10
  {
    if IsDecimal(c) then c as int - '0' as int
    else if 'a' <= c <= 'f' then c as int - 'a' as int + 10
    else c as int - 'A' as int + 10
  }

  /** The uppercase digit of value `v`. */
  function DigitChar(v: nat): (c: char)
    requires v < 16
    ensures IsUpperHex(c) && DigitValue(c) == v
  {
    if v < 10 then (('0' as int) + v) as char else (('A' as int) + v - 10) as char
  }

  /** The value of a digit string, most significant digit first. */
  function ValueOf(s: string, base: Base): nat
    requires AllDigits(s, base)
  {
    if s == [] then 0 else ValueOf(s[..|s| - 1], base) * base + DigitValue(s[|s| - 1])
  }

  lemma ValueOfSnoc(s: string, c: char, base: Base)
    requires AllDigits(s, base) && InBase(c, base)
    ensures AllDigits(s + [c], base)
    ensures ValueOf(s + [c], base) == ValueOf(s, base) * base + DigitValue(c)
  {
    assert (s + [c])[..|s|] == s;
  }

  /** A digit string of length `n` stays below `base^n`. */
  lemma {:induction false} ValueOfBound(s: string, base: Base)
    requires AllDigits(s, base)
    ensures ValueOf(s, base) < Pow(base, |s|)
  {
    if s != [] {
      var init := s[..|s| - 1];
      ValueOfBound(init, base);
      var d := DigitValue(s[|s| - 1]);
      assert d < base;
      DigitStep(ValueOf(init, base), d, base, Pow(base, |init|));
    }
  }

  /** Appending a digit to a value below `p` gives a value below `p * base`. */
  lemma DigitStep(v: nat, d: nat, base: nat, p: nat)
    requires v < p && d < base
    ensures v * base + d < base * p
  {
    MulMonotone(v + 1, p, base);
  }

  lemma MulMonotone(x: nat, y: nat, k: nat)
    requires x <= y
    ensures x * k <= y * k
  {}

  /** Leading zeros do not change the value. */
  lemma {:induction false} ValueOfLeadingZero(s: string, base: Base)
    requires AllDigits(s, base)
    ensures AllDigits("0" + s, base)
    ensures ValueOf("0" + s, base) == ValueOf(s, base)
  {
    var z := "0" + s;
    if s != [] {
      var init := s[..|s| - 1];
      assert z[..|z| - 1] == "0" + init;
      ValueOfLeadingZero(init, base);
    } else {
      assert z[..|z| - 1] == [];
    }
  }

  /** `x * b + d` splits back into `x` and `d`. */
  lemma DivModDigit(x: nat, d: nat, b: nat)
    requires d < b
    ensures (x * b + d) / b == x && (x * b + d) % b == d
  {
    var n := x * b + d;
    var q, m := n / b, n % b;
    assert n == q * b + m;
    assert (q - x) * b == d - m;
    if q > x {
      MulMonotone(1, q - x, b);
    } else if q < x {
      MulMonotone(1, x - q, b);
    }
  }

  /** Uppercase digit strings of one length are determined by their value. */
  lemma {:induction false} UpperHexInjective(s: string, t: string)
    requires |s| == |t| && AllUpperHex(s) && AllUpperHex(t)
    requires AllDigits(s, 16) && AllDigits(t, 16)
    requires ValueOf(s, 16) == ValueOf(t, 16)
    ensures s == t
  {
    if s != [] {
      var n := |s| - 1;
      var a, b := DigitValue(s[n]), DigitValue(t[n]);
      DivModDigit(ValueOf(s[..n], 16), a, 16);
      DivModDigit(ValueOf(t[..n], 16), b, 16);
      UpperHexInjective(s[..n], t[..n]);
      assert s[n] == t[n] by {
        UpperDigitInjective(s[n], t[n]);
      }
      assert s == s[..n] + [s[n]] && t == t[..n] + [t[n]];
    }
  }

  lemma UpperDigitInjective(c: char, d: char)
    requires IsUpperHex(c) && IsUpperHex(d) && DigitValue(c) == DigitValue(d)
    ensures c == d
  {}

  /** Shortest digit string of `n`, uppercase: Go `FormatInt`/`%X` and C++ `<<` without padding. */
  function Digits(n: nat, base: Base): (r: string)
    ensures |r| >= 1 && AllDigits(r, base) && AllUpperHex(r)
    ensures ValueOf(r, base) == n
    ensures |r| > 1 ==> r[0] != '0'
    decreases n
  {
    if n < base then [DigitChar(n)]
    else
      var init := Digits(n / base, base);
      ValueOfSnoc(init, DigitChar(n % base), base);
      init + [DigitChar(n % base)]
  }

  /** A digit string with a non-zero leading digit has a positive value. */
  lemma {:induction false} ValueOfPositive(s: string, base: Base)
    requires s != [] && AllDigits(s, base) && s[0] != '0'
    ensures ValueOf(s, base) > 0
  {
    if |s| > 1 {
      var init := s[..|s| - 1];
      ValueOfPositive(init, base);
    }
  }

  /** An uppercase digit string without leading zero is the shortest rendering of its value. */
  lemma {:induction false} DigitsOfValue(s: string, base: Base)
    requires s != [] && AllDigits(s, base) && AllUpperHex(s) && (|s| > 1 ==> s[0] != '0')
    ensures Digits(ValueOf(s, base), base) == s
  {
    if |s| == 1 {
      DigitsOfDigit(s, base);
    } else {
      var init := s[..|s| - 1];
      InitDigits(s, base);
      DigitsOfValue(init, base);
      DigitsSnoc(s, base);
    }
  }

  /** One digit is the rendering of its value. */
  lemma DigitsOfDigit(s: string, base: Base)
    requires |s| == 1 && AllDigits(s, base) && AllUpperHex(s)
    ensures Digits(ValueOf(s, base), base) == s
  {
    var c := s[0];
    assert s[..0] == [];
    assert ValueOf(s, base) == DigitValue(c);
    UpperDigitInjective(DigitChar(DigitValue(c)), c);
    SnocSplit(s);
  }

  /** A digit appended to a rendered value without leading zero renders the longer value. */
  lemma DigitsSnoc(s: string, base: Base)
    requires |s| > 1 && AllDigits(s, base) && AllUpperHex(s) && s[0] != '0'
    requires Digits(ValueOf(s[..|s| - 1], base), base) == s[..|s| - 1]
    ensures Digits(ValueOf(s, base), base) == s
  {
    var c := s[|s| - 1];
    var d := DigitValue(c);
    var init := s[..|s| - 1];
    InitDigits(s, base);
    ValueOfPositive(init, base);
    DivModDigit(ValueOf(init, base), d, base);
    UpperDigitInjective(DigitChar(d), c);
    SnocSplit(s);
  }

  /** A sequence is its front followed by its last element. */
  lemma SnocSplit<T>(s: seq<T>)
    requires s != []
    ensures s == s[..|s| - 1] + [s[|s| - 1]]
  {
  }

  /** The front of a digit string is a digit string with the same first character. */
  lemma InitDigits(s: string, base: Base)
    requires |s| > 1 && AllDigits(s, base) && AllUpperHex(s)
    ensures var init := s[..|s| - 1];
            AllDigits(init, base) && AllUpperHex(init) && init[0] == s[0]
  {
  }

  /** `n < base^w` needs at most `w` digits. */
  lemma {:induction false} DigitsLength(n: nat, base: Base, w: nat)
    requires 1 <= w && n < Pow(base, w)
    ensures |Digits(n, base)| <= w
    decreases n
  {
    if n >= base {
      assert Pow(base, 1) == base;
      assert w != 1;
      assert n / base < Pow(base, w - 1);
      DigitsLength(n / base, base, w - 1);
    }
  }

  function Repeat(c: char, n: nat): (r: string)
    ensures |r| == n && forall i :: 0 <= i < n ==> r[i] == c
  {
    if n == 0 then "" else [c] + Repeat(c, n - 1)
  }

  /** `std::setfill('0') << std::setw(width)` and Go's `%0<width>` on a non-negative digit string. */
  function ZeroPad(s: string, width: nat): (r: string)
    ensures |r| == if |s| < width then width else |s|
    ensures r[|r| - |s|..] == s
  {
    Repeat('0', if |s| < width then width - |s| else 0) + s
  }

  lemma {:induction false} ZeroPadValue(s: string, width: nat, base: Base)
    requires AllDigits(s, base)
    ensures AllDigits(ZeroPad(s, width), base)
    ensures ValueOf(ZeroPad(s, width), base) == ValueOf(s, base)
    decreases width
  {
    if |s| < width {
      ZeroPadValue(s, width - 1, base);
      var shorter := ZeroPad(s, width - 1);
      assert ZeroPad(s, width) == "0" + shorter;
      ValueOfLeadingZero(shorter, base);
    } else {
      assert ZeroPad(s, width) == s;
    }
  }

  /** Uppercase hexadecimal of `n`, zero-padded to at least `width` digits. */
  function Hex(n: nat, width: nat): (r: string)
    ensures AllUpperHex(r) && AllDigits(r, 16)
    ensures |r| >= width && |r| >= 1
    ensures ValueOf(r, 16) == n
  {
    var r := ZeroPad(Digits(n, 16), width);
    ZeroPadValue(Digits(n, 16), width, 16);
    r
  }

  lemma HexWidth(n: nat, width: nat)
    requires 1 <= width && n < Pow(16, width)
    ensures |Hex(n, width)| == width
  {
    DigitsLength(n, 16, width);
  }

  /** A 16-bit value as exactly four uppercase hex digits (`%04X`). */
  function Hex4(n: nat): (r: string)
    requires n < 0x1_0000
    ensures |r| == 4 && AllUpperHex(r) && AllDigits(r, 16)
    ensures ValueOf(r, 16) == n
  {
    PowFacts();
    HexWidth(n, 4);
    Hex(n, 4)
  }

  /** Four uppercase hex digits are the `%04X` rendering of their own value. */
  lemma Hex4OfValue(s: string)
    requires |s| == 4 && AllUpperHex(s) && AllDigits(s, 16)
    ensures ValueOf(s, 16) < 0x1_0000
    ensures Hex4(ValueOf(s, 16)) == s
  {
    ValueOfBound(s, 16);
    PowFacts();
    UpperHexInjective(Hex4(ValueOf(s, 16)), s);
  }

  // ---------------------------------------------------------------------------
  // Go strconv and fmt

  /** Go `strconv.ParseUint(s, base, bits)`: digits only, no sign or prefix, value below `2^bits`. */
  function ParseUint(s: string, base: Base, bits: nat): (r: Option<nat>)
    ensures r.Some? <==> s != [] && AllDigits(s, base) && ValueOf(s, base) < Pow(2, bits)
    ensures r.Some? ==> r.value == ValueOf(s, base)
  {
    if s != [] && AllDigits(s, base) && ValueOf(s, base) < Pow(2, bits) then Some(ValueOf(s, base)) else None
  }

  /** Go `strconv.ParseInt(s, base, bits)`: an optional sign, at least one digit, in signed `bits` range. */
  function ParseInt(s: string, base: Base, bits: nat): (r: Option<int>)
    requires bits >= 1
    ensures r.Some? ==> -Pow(2, bits - 1) <= r.value < Pow(2, bits - 1)
    ensures r.Some? ==> s != [] && (IsHex(s[0]) || s[0] == '+' || s[0] == '-')
    ensures r.Some? && s[0] == '-' ==> r.value <= 0
    ensures r.Some? && s[0] != '-' ==> r.value >= 0
  {
    var signed := |s| > 0 && (s[0] == '-' || s[0] == '+');
    var digits := if signed then s[1..] else s;
    if digits == [] || !AllDigits(digits, base) then None
    else
      var v: int := ValueOf(digits, base);
      var x: int := if s[0] == '-' then -v else v;
      if -Pow(2, bits - 1) <= x < Pow(2, bits - 1) then Some(x) else None
  }

  /** Go `strconv.Atoi`: base 10 into a 64-bit `int`. */
  function Atoi(s: string): (r: Option<int>)
    ensures r.Some? ==> -TwoTo63 <= r.value < TwoTo63
  {
    PowFacts();
    ParseInt(s, 10, 64)
  }

  /** The powers the protocol's integer widths use. */
  lemma PowFacts()
    ensures Pow(16, 2) == 0x100 && Pow(16, 4) == 0x1_0000
    ensures Pow(2, 8) == 0x100 && Pow(2, 15) == 0x8000 && Pow(2, 16) == 0x1_0000
    ensures Pow(2, 31) == TwoTo31 && Pow(2, 63) == TwoTo63
  {
    assert Pow(16, 4) == 0x1_0000;
    assert Pow(2, 8) == 0x100;
    PowAdd(2, 8, 7);
    PowAdd(2, 8, 8);
    PowAdd(2, 16, 15);
    PowAdd(2, 16, 16);
    PowAdd(2, 32, 31);
  }

  lemma {:induction false} PowAdd(b: nat, m: nat, n: nat)
    ensures Pow(b, m + n) == Pow(b, m) * Pow(b, n)
    decreases m
  {
    if m > 0 {
      PowAdd(b, m - 1, n);
      assert Pow(b, m + n) == b * Pow(b, m - 1 + n);
      assert b * (Pow(b, m - 1) * Pow(b, n)) == (b * Pow(b, m - 1)) * Pow(b, n);
    }
  }


  /** Go `strconv.FormatInt(n, 10)`, `strconv.Itoa`, `%d`, and C++ `operator<<`/`std::to_string` of an integer. */
  function FormatInt(n: int): (r: string)
    ensures |r| >= 1
    ensures n >= 0 ==> AllDigits(r, 10) && ValueOf(r, 10) == n
    ensures n < 0 ==> |r| >= 2 && r[0] == '-' && AllDigits(r[1..], 10) && ValueOf(r[1..], 10) == -n
  {
    if n < 0 then "-" + Digits(-n, 10) else Digits(n, 10)
  }

  /** Go `%0<width>X` of an `int`: a minus sign counts towards the width. */
  function GoHex(n: int, width: nat): (r: string)
    ensures n >= 0 ==> r == Hex(n, width)
    ensures n < 0 ==> |r| >= 2 && r[0] == '-' && AllDigits(r[1..], 16) && ValueOf(r[1..], 16) == -n
  {
    if n < 0 then
      var r := "-" + Hex(-n, if width > 0 then width - 1 else 0);
      assert r[1..] == Hex(-n, if width > 0 then width - 1 else 0);
      r
    else Hex(n, width)
  }

  /** Go `%X` of a byte slice: two uppercase digits per byte. */
  function HexBytes(data: seq<Byte>): (r: string)
    ensures |r| == 2 * |data| && AllUpperHex(r) && AllDigits(r, 16)
  {
    if data == [] then ""
    else
      HexWidth(data[0], 2);
      PowFacts();
      Hex(data[0], 2) + HexBytes(data[1..])
  }

  /** Decimal text as `FormatInt` writes it: no `+`, no leading zero, no `-0`. */
  predicate CanonicalDecimal(s: string) {
    var negative := |s| > 0 && s[0] == '-';
    var digits := if negative then s[1..] else s;
    digits != [] && AllDigits(digits, 10) && (|digits| > 1 || negative ==> digits[0] != '0')
  }

  /** Decimal digits are uppercase hex digits. */
  lemma DecimalUpper(s: string)
    requires AllDigits(s, 10)
    ensures AllUpperHex(s)
  {
    assert forall i :: 0 <= i < |s| ==> InBase(s[i], 10);
  }

  /** Canonical decimal text is exactly what `FormatInt` writes for the value it parses to. */
  lemma FormatIntCanonical(s: string, bits: nat)
    requires bits >= 1 && CanonicalDecimal(s) && ParseInt(s, 10, bits).Some?
    ensures FormatInt(ParseInt(s, 10, bits).value) == s
  {
    ParseIntValue(s, 10, bits);
    if s[0] == '-' {
      FormatNegative(s);
    } else {
      assert InBase(s[0], 10);
      DecimalUpper(s);
      DigitsOfValue(s, 10);
    }
  }

  /** `-` and canonical digits are the decimal text of their negated value. */
  lemma FormatNegative(s: string)
    requires CanonicalDecimal(s) && s[0] == '-'
    ensures FormatInt(-(ValueOf(s[1..], 10) as int)) == s
  {
    var digits := s[1..];
    DecimalUpper(digits);
    DigitsOfValue(digits, 10);
    ValueOfPositive(digits, 10);
    ConsSplit(s);
  }

  /** What `ParseInt` accepts is the value of its digits, negated after a `-`. */
  lemma ParseIntValue(s: string, base: Base, bits: nat)
    requires bits >= 1 && ParseInt(s, base, bits).Some?
    ensures s[0] == '-' ==> AllDigits(s[1..], base) && ParseInt(s, base, bits).value == -(ValueOf(s[1..], base) as int)
    ensures s[0] == '+' ==> AllDigits(s[1..], base) && ParseInt(s, base, bits).value == ValueOf(s[1..], base)
    ensures s[0] != '-' && s[0] != '+' ==> AllDigits(s, base) && ParseInt(s, base, bits).value == ValueOf(s, base)
  {
  }

  /** A sequence is its first element followed by the rest. */
  lemma ConsSplit<T>(s: seq<T>)
    requires s != []
    ensures s == [s[0]] + s[1..]
  {
  }

  /** A canonical decimal that `Atoi` reads is what `%d` writes for its value. */
  lemma AtoiCanonical(s: string, n: int)
    requires Atoi(s) == Some(n) && CanonicalDecimal(s)
    ensures FormatInt(n) == s
  {
    PowFacts();
    FormatIntCanonical(s, 64);
  }

  /** What `FormatInt` writes is always canonical. */
  lemma FormatIntIsCanonical(n: int)
    ensures CanonicalDecimal(FormatInt(n))
  {
    if n < 0 {
      var digits := Digits(-n, 10);
      assert FormatInt(n)[1..] == digits;
    } else {
      var digits := Digits(n, 10);
      assert digits[0] != '-' by { assert InBase(digits[0], 10); }
    }
  }

  /** Integer text holds only a sign and digits, so none of the protocol's separators. */
  lemma FormatIntNoSeparator(n: int)
    ensures ';' !in FormatInt(n) && ',' !in FormatInt(n) && ':' !in FormatInt(n)
  {
    var text := FormatInt(n);
    if n < 0 {
      DigitsFree(text[1..], 10);
      SignFree(text);
    } else {
      DigitsFree(text, 10);
    }
  }

  /** Digits are none of the protocol's separators. */
  lemma DigitsFree(s: string, base: Base)
    requires AllDigits(s, base)
    ensures ';' !in s && ',' !in s && ':' !in s
  {
    forall i | 0 <= i < |s| ensures s[i] != ';' && s[i] != ',' && s[i] != ':' {
      assert InBase(s[i], base);
    }
  }

  /** A `-` in front of separator-free text adds no separator. */
  lemma SignFree(text: string)
    requires text != [] && text[0] == '-'
    requires ';' !in text[1..] && ',' !in text[1..] && ':' !in text[1..]
    ensures ';' !in text && ',' !in text && ':' !in text
  {
    assert text == [text[0]] + text[1..];
  }

  /** Integer text reads back as the integer it was written from. */
  lemma ParseIntFormatInt(n: int, bits: nat)
    requires bits >= 1 && -Pow(2, bits - 1) <= n < Pow(2, bits - 1)
    ensures ParseInt(FormatInt(n), 10, bits) == Some(n)
  {
    var s := FormatInt(n);
    if n < 0 {
      assert s[0] == '-' && s[1..] == Digits(-n, 10);
    } else {
      assert s == Digits(n, 10);
      assert s[0] != '-' && s[0] != '+' by { assert IsDecimal(s[0]); }
    }
  }

  lemma AtoiFormatInt(n: Int64)
    ensures Atoi(FormatInt(n)) == Some(n)
  {
    PowFacts();
    ParseIntFormatInt(n, 64);
  }

  /** `%0<w>X` of a signed value reads back with `ParseInt(_, 16, bits)`. */
  lemma ParseIntGoHex(n: int, width: nat, bits: nat)
    requires bits >= 1 && -Pow(2, bits - 1) <= n < Pow(2, bits - 1)
    ensures ParseInt(GoHex(n, width), 16, bits) == Some(n)
  {
    var s := GoHex(n, width);
    if n >= 0 {
      assert IsUpperHex(s[0]);
      ParseIntUnsigned(s, 16, bits);
    } else {
      ParseIntNegative(s, 16, bits);
    }
  }

  /** Digits without a sign read as their value when it is in range. */
  lemma ParseIntUnsigned(s: string, base: Base, bits: nat)
    requires bits >= 1 && s != [] && s[0] != '-' && s[0] != '+' && AllDigits(s, base)
    requires ValueOf(s, base) < Pow(2, bits - 1)
    ensures ParseInt(s, base, bits) == Some(ValueOf(s, base))
  {
  }

  /** Unsigned digits whose value is out of range do not read. */
  lemma ParseIntTooLarge(s: string, base: Base, bits: nat)
    requires bits >= 1 && s != [] && s[0] != '-' && s[0] != '+' && AllDigits(s, base)
    requires ValueOf(s, base) >= Pow(2, bits - 1)
    ensures ParseInt(s, base, bits) == None
  {
  }

  /** A `-` and digits read as the negated value when it is in range. */
  lemma ParseIntNegative(s: string, base: Base, bits: nat)
    requires bits >= 1 && |s| >= 2 && s[0] == '-' && AllDigits(s[1..], base)
    requires ValueOf(s[1..], base) <= Pow(2, bits - 1)
    ensures ParseInt(s, base, bits) == Some(-(ValueOf(s[1..], base) as int))
  {
  }


  /** `%04X` of a 16-bit value reads back with `ParseUint(_, 16, 16)`. */
  lemma ParseUintHex4(n: nat)
    requires n < 0x1_0000
    ensures ParseUint(Hex4(n), 16, 16) == Some(n)
  {
    PowFacts();
  }

  // ---------------------------------------------------------------------------
  // C++ std::stoi / std::stoll (strtol semantics)

  /** C `isspace` in the "C" locale. */
  predicate IsCSpace(c: char) { c == ' ' || '\t' <= c <= '\r' }

  /** `s` without its leading white space. */
  function DropCSpace(s: string): (r: string)
    ensures |r| <= |s|
  {
    if s != [] && IsCSpace(s[0]) then DropCSpace(s[1..]) else s
  }

  /** The longest prefix of `s` made of digits of `base`. */
  function DigitPrefix(s: string, base: Base): (r: string)
    ensures |r| <= |s| && AllDigits(r, base)
  {
    if s != [] && InBase(s[0], base) then [s[0]] + DigitPrefix(s[1..], base) else []
  }

  /** Base 16 skips a `0x`/`0X` prefix when a hex digit follows it. */
  function SkipHexPrefix(s: string, base: Base): string {
    if base == 16 && |s| >= 3 && s[0] == '0' && (s[1] == 'x' || s[1] == 'X') && IsHex(s[2]) then s[2..] else s
  }

  /**
   * `strtol`-style conversion as `std::stoi`/`std::stoll` perform it: leading
   * white space, an optional sign, for base 16 an optional `0x`, then the
   * longest run of digits. No digit at all is `std::invalid_argument`; a value
   * outside `[lo, hi]` is `std::out_of_range`. Text after the digits is ignored.
   */
  function StrToInt(s: string, base: Base, lo: int, hi: int): (r: Result<int, CppError>)
    ensures r.Ok? ==> lo <= r.value <= hi
    ensures r.Err? ==> r.error == InvalidArgument || r.error == OutOfRange
    decreases |s|
  {
    if s != [] && IsCSpace(s[0]) then StrToInt(s[1..], base, lo, hi)
    else
      var neg := s != [] && s[0] == '-';
      var u := SkipHexPrefix(if s != [] && (s[0] == '-' || s[0] == '+') then s[1..] else s, base);
      var d := DigitPrefix(u, base);
      if d == [] then Err(InvalidArgument)
      else
        var magnitude: int := ValueOf(d, base);
        var v := if neg then -magnitude else magnitude;
        if lo <= v <= hi then Ok(v) else Err(OutOfRange)
  }

  /** `std::stoi(s, nullptr, base)`. */
  function Stoi(s: string, base: Base): (r: Result<int, CppError>)
    ensures r.Ok? ==> -TwoTo31 <= r.value < TwoTo31
  {
    StrToInt(s, base, -TwoTo31, TwoTo31 - 1)
  }

  /** `std::stoll(s)`. */
  function Stoll(s: string): (r: Result<int, CppError>)
    ensures r.Ok? ==> -TwoTo63 <= r.value < TwoTo63
  {
    StrToInt(s, 10, -TwoTo63, TwoTo63 - 1)
  }

  /** A whole digit string is read completely by `StrToInt`. */
  lemma StrToIntDigits(s: string, base: Base, lo: int, hi: int)
    requires s != [] && AllDigits(s, base) && AllUpperHex(s) && lo <= ValueOf(s, base) <= hi
    ensures StrToInt(s, base, lo, hi) == Ok(ValueOf(s, base))
  {
    assert !IsCSpace(s[0]) by { assert IsUpperHex(s[0]); }
    assert s[0] != '-' && s[0] != '+';
    assert base == 16 && |s| >= 2 ==> s[1] != 'x' && s[1] != 'X' by {
      if |s| >= 2 { assert IsUpperHex(s[1]); }
    }
    assert SkipHexPrefix(s, base) == s;
    DigitPrefixAll(s, base);
  }

  lemma {:induction false} DigitPrefixAll(s: string, base: Base)
    requires AllDigits(s, base)
    ensures DigitPrefix(s, base) == s
  {
    if s != [] {
      DigitPrefixAll(s[1..], base);
    }
  }

  /** `std::stoi` reads back what `std::hex << std::setw(w)` wrote. */
  lemma StoiHex(n: nat, width: nat)
    requires n < TwoTo31
    ensures Stoi(Hex(n, width), 16) == Ok(n)
  {
    StrToIntDigits(Hex(n, width), 16, -TwoTo31, TwoTo31 - 1);
  }

  /** `std::stoll`/`std::stoi` read back what `operator<<` wrote. */
  lemma StrToIntFormatInt(n: int, lo: int, hi: int)
    requires lo <= n <= hi
    ensures StrToInt(FormatInt(n), 10, lo, hi) == Ok(n)
  {
    var s := FormatInt(n);
    if n >= 0 {
      StrToIntDigits(s, 10, lo, hi);
    } else {
      DecimalUpper(s[1..]);
      StrToIntNegative(s, 10, lo, hi);
    }
  }

  /** A `-` and digits convert to the negated value when it is in range. */
  lemma StrToIntNegative(s: string, base: Base, lo: int, hi: int)
    requires |s| >= 2 && s[0] == '-' && AllDigits(s[1..], base) && AllUpperHex(s[1..])
    requires lo <= -(ValueOf(s[1..], base) as int) <= hi
    ensures StrToInt(s, base, lo, hi) == Ok(-(ValueOf(s[1..], base) as int))
  {
    var u := s[1..];
    assert IsUpperHex(u[0]);
    assert |u| >= 2 ==> IsUpperHex(u[1]);
    assert SkipHexPrefix(u, base) == u;
    DigitPrefixAll(u, base);
  }

  /**
   * `std::stoi(token, nullptr, 16)` with `std::invalid_argument` caught and
   * read as 0: how the C++ decoders read a received checksum.
   * `std::out_of_range` is not caught.
   */
  function HexOrZero(token: string): (r: Result<int, CppError>)
    ensures Stoi(token, 16).Ok? ==> r == Stoi(token, 16)
    ensures Stoi(token, 16) == Err(InvalidArgument) ==> r == Ok(0)
    ensures r.Err? ==> r.error == OutOfRange
  {
    match Stoi(token, 16)
    case Ok(v) => Ok(v)
    case Err(e) => if e == InvalidArgument then Ok(0) else Err(e)
  }

  /** C++ `std::hex` of an `int` prints its two's-complement bit pattern. */
  function CppHex(n: int, width: nat): (r: string)
    ensures AllUpperHex(r) && AllDigits(r, 16) && |r| >= width
    ensures 0 <= n < 0x1_0000_0000 ==> ValueOf(r, 16) == n
  {
    Hex(n % 0x1_0000_0000, width)
  }

  // ---------------------------------------------------------------------------
  // Floating-point syntax (values are never interpreted)

  predicate AllDecimal(s: string) {
    forall i :: 0 <= i < |s| ==> IsDecimal(s[i])
  }

  predicate EqualsIgnoreCase(s: string, t: string) {
    |s| == |t| && forall i :: 0 <= i < |s| ==> Lower(s[i]) == t[i]
  }

  function Lower(c: char): char {
    if 'A' <= c <= 'Z' then (c as int + 32) as char else c
  }

  /** `digits`, `digits.digits?` or `.digits`. */
  predicate DecimalMantissa(s: string) {
    |s| > 0 &&
    var i := FirstIndex(s, '.');
    AllDecimal(s[..i]) &&
    (i == |s| || AllDecimal(s[i + 1..])) &&
    (i > 0 || (i + 1 < |s|))
  }

  /** `e` or `E`, an optional sign, at least one digit. */
  predicate Exponent(s: string) {
    |s| >= 2 && (s[0] == 'e' || s[0] == 'E') &&
    var digits := if s[1] == '+' || s[1] == '-' then s[2..] else s[1..];
    digits != [] && AllDecimal(digits)
  }

  /**
   * The decimal and special forms Go's `strconv.ParseFloat(s, 64)` accepts:
   * an optional sign, then either `inf`/`infinity` (any case) or a decimal
   * mantissa with an optional exponent; or `nan` (any case) alone.
   */
  predicate GoFloatText(s: string) {
    EqualsIgnoreCase(s, "nan") ||
    var u := if s != [] && (s[0] == '+' || s[0] == '-') then s[1..] else s;
    EqualsIgnoreCase(u, "inf") || EqualsIgnoreCase(u, "infinity") ||
    exists k :: 0 < k <= |u| && DecimalMantissa(u[..k]) && (k == |u| || Exponent(u[k..]))
  }

  /**
   * `std::stof` finds something to convert: after white space and an optional
   * sign, a digit, a `.` followed by a digit, `inf` or `nan` (any case).
   */
  predicate CFloatText(s: string) {
    var t := DropCSpace(s);
    var u := if t != [] && (t[0] == '+' || t[0] == '-') then t[1..] else t;
    (u != [] && IsDecimal(u[0])) ||
    (|u| >= 2 && u[0] == '.' && IsDecimal(u[1])) ||
    (|u| >= 3 && (EqualsIgnoreCase(u[..3], "inf") || EqualsIgnoreCase(u[..3], "nan")))
  }
}
