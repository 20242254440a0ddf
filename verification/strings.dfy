/**
 * Text helpers shared by both implementations: the C++ helpers of
 * cpp/src/helpers/strings.cpp (`starts_with`, `ends_with`, the `getline`
 * based `split`, both `join` overloads) and the pieces of Go's `strings`
 * package the Go codecs lean on (`Split`, `Join`, `TrimSuffix`, `Replace`,
 * `ReplaceAll`, `TrimSpace`), plus the UTF-8 view of a string that the
 * checksum is computed over.
 */
module Strings {

  import opened Results

  type Byte = b: int | 0 <= b < 256

  // ---------------------------------------------------------------------------
  // Prefixes and suffixes

  /** C++ `starts_with` and Go `strings.HasPrefix`. */
  predicate StartsWith(value: string, prefix: string) {
    |prefix| <= |value| && value[..|prefix|] == prefix
  }

  /** C++ `ends_with` and Go `strings.HasSuffix`. */
  predicate EndsWith(value: string, suffix: string) {
    |suffix| <= |value| && value[|value| - |suffix|..] == suffix
  }

  /** `starts_with(v, p)` holds exactly when `v` is `p` followed by something. */
  lemma StartsWithIff(value: string, prefix: string)
    ensures StartsWith(value, prefix) <==> exists rest :: value == prefix + rest
  {
    if StartsWith(value, prefix) {
      assert value == prefix + value[|prefix|..];
    }
    if exists rest :: value == prefix + rest {
      var rest :| value == prefix + rest;
      assert value[..|prefix|] == prefix;
    }
  }

  /** `ends_with(v, s)` holds exactly when `v` is something followed by `s`. */
  lemma EndsWithIff(value: string, suffix: string)
    ensures EndsWith(value, suffix) <==> exists front :: value == front + suffix
  {
    if EndsWith(value, suffix) {
      assert value == value[..|value| - |suffix|] + suffix;
    }
    if exists front :: value == front + suffix {
      var front :| value == front + suffix;
      assert value[|value| - |suffix|..] == suffix;
    }
  }

  /** Go `strings.TrimSuffix`: drops one occurrence of `suffix` at the end, if present. */
  function TrimSuffix(s: string, suffix: string): (r: string)
    ensures EndsWith(s, suffix) ==> r + suffix == s
    ensures !EndsWith(s, suffix) ==> r == s
  {
    if EndsWith(s, suffix) then s[..|s| - |suffix|] else s
  }

  // ---------------------------------------------------------------------------
  // Searching

  /** Index of the first `d` in `s`, or `|s|` when there is none. */
  function FirstIndex(s: string, d: char): (i: nat)
    ensures i <= |s|
    ensures i < |s| ==> s[i] == d
    ensures forall j :: 0 <= j < i ==> s[j] != d
  {
    if s == [] then 0 else if s[0] == d then 0 else 1 + FirstIndex(s[1..], d)
  }

  lemma FirstIndexUnique(s: string, d: char, i: nat)
    requires i <= |s|
    requires i < |s| ==> s[i] == d
    requires forall j :: 0 <= j < i ==> s[j] != d
    ensures FirstIndex(s, d) == i
  {
  }

  predicate OccursAt(s: string, sub: string, j: int) {
    0 <= j && j + |sub| <= |s| && s[j..j + |sub|] == sub
  }

  /** Leftmost position at or after `from` at which `sub` occurs in `s`. */
  function IndexFrom(s: string, sub: string, from: nat): (r: Option<nat>)
    ensures r.Some? ==> from <= r.value && OccursAt(s, sub, r.value)
    ensures r.Some? ==> forall j :: from <= j < r.value ==> !OccursAt(s, sub, j)
    ensures r.None? ==> forall j :: from <= j ==> !OccursAt(s, sub, j)
    decreases |s| - from
  {
    if from + |sub| > |s| then None
    else if s[from..from + |sub|] == sub then Some(from)
    else IndexFrom(s, sub, from + 1)
  }

  /** Leftmost position at which `sub` occurs in `s` (Go `strings.Index`). */
  function IndexOf(s: string, sub: string): Option<nat>
  {
    IndexFrom(s, sub, 0)
  }

  /** Go `strings.Replace(s, target, repl, 1)` for a non-empty `target`. */
  function ReplaceFirst(s: string, target: string, repl: string): (r: string)
    requires |target| > 0
    ensures (forall j :: 0 <= j ==> !OccursAt(s, target, j)) ==> r == s
    ensures forall i | OccursAt(s, target, i) && (forall j | 0 <= j < i :: !OccursAt(s, target, j)) ::
              r == s[..i] + repl + s[i + |target|..]
  {
    match IndexOf(s, target)
    case None => s
    case Some(i) => s[..i] + repl + s[i + |target|..]
  }

  /** Go `strings.ReplaceAll(s, [c], "")`. */
  function RemoveAll(s: string, c: char): (r: string)
    ensures c !in r
    ensures c !in s ==> r == s
  {
    if s == [] then []
    else (if s[0] == c then [] else [s[0]]) + RemoveAll(s[1..], c)
  }

  /** Every character other than `c` is kept, as often as it occurs. */
  lemma {:induction false} RemoveAllCount(s: string, c: char)
    ensures multiset(RemoveAll(s, c)) == multiset(s)[c := 0]
  {
    if s != [] {
      assert s == [s[0]] + s[1..];
      RemoveAllCount(s[1..], c);
    }
  }

  /** Removing a character adds no other. */
  lemma {:induction false} RemoveAllKeeps(s: string, c: char, e: char)
    requires e !in s
    ensures e !in RemoveAll(s, c)
  {
    if s != [] {
      assert forall x <- s[1..] :: x in s;
      RemoveAllKeeps(s[1..], c, e);
    }
  }

  lemma RemoveAllAppend(a: string, b: string, c: char)
    ensures RemoveAll(a + b, c) == RemoveAll(a, c) + RemoveAll(b, c)
  {
    if a != [] {
      var t := a[1..];
      var head := if a[0] == c then [] else [a[0]];
      ConsAppend(a, b);
      RemoveAllAppend(t, b, c);
      ConcatAssoc(head, RemoveAll(t, c), RemoveAll(b, c));
    } else {
      assert a + b == b;
    }
  }

  /** The first element and the rest of a concatenation with a non-empty front. */
  lemma ConsAppend<T>(a: seq<T>, b: seq<T>)
    requires a != []
    ensures (a + b)[0] == a[0] && (a + b)[1..] == a[1..] + b
  {
  }

  lemma TailIndex<T>(s: seq<T>)
    requires s != []
    ensures forall i | 1 <= i < |s| :: s[i] == s[1..][i - 1]
  {
  }

  lemma ConcatAssoc<T>(x: seq<T>, y: seq<T>, z: seq<T>)
    ensures x + y + z == x + (y + z)
  {
  }

  /** Go `unicode.IsSpace`. */
  predicate IsSpace(c: char) {
    || c == ' ' || ('\t' <= c <= '\r') || c == '\U{0085}' || c == '\U{00A0}'
    || c == '\U{1680}' || ('\U{2000}' <= c <= '\U{200A}') || c == '\U{2028}' || c == '\U{2029}'
    || c == '\U{202F}' || c == '\U{205F}' || c == '\U{3000}'
  }

  /** Every character is white space. */
  predicate AllSpace(u: string) {
    forall k :: 0 <= k < |u| ==> IsSpace(u[k])
  }

  /** `strings.TrimLeftFunc(s, unicode.IsSpace)`. */
  function TrimLeftSpace(s: string): (r: string)
    ensures |r| <= |s| && s[|s| - |r|..] == r
    ensures r == [] || !IsSpace(r[0])
    ensures AllSpace(s[..|s| - |r|])
  {
    if s != [] && IsSpace(s[0]) then
      var r := TrimLeftSpace(s[1..]);
      assert s[..|s| - |r|] == [s[0]] + s[1..][..|s| - 1 - |r|];
      r
    else s
  }

  /** `strings.TrimRightFunc(s, unicode.IsSpace)`. */
  function TrimRightSpace(s: string): (r: string)
    ensures |r| <= |s| && s[..|r|] == r
    ensures r == [] || !IsSpace(r[|r| - 1])
    ensures AllSpace(s[|r|..])
  {
    if s != [] && IsSpace(s[|s| - 1]) then
      var r := TrimRightSpace(s[..|s| - 1]);
      assert s[|r|..] == s[..|s| - 1][|r|..] + [s[|s| - 1]];
      r
    else s
  }

  /** Go `strings.TrimSpace`: strips leading and trailing Unicode white space. */
  function TrimSpace(s: string): (r: string)
    ensures r == [] || (!IsSpace(r[0]) && !IsSpace(r[|r| - 1]))
    ensures (s == [] || (!IsSpace(s[0]) && !IsSpace(s[|s| - 1]))) ==> r == s
  {
    TrimRightSpace(TrimLeftSpace(s))
  }

  /**
   * What `TrimSpace` drops: `s` is a run of white space, the result, and
   * another run of white space.
   */
  lemma TrimSpaceParts(s: string)
    ensures var i, r := |s| - |TrimLeftSpace(s)|, TrimSpace(s);
            i + |r| <= |s| && s == s[..i] + r + s[i + |r|..] && AllSpace(s[..i]) && AllSpace(s[i + |r|..])
  {
    var t := TrimLeftSpace(s);
    var r := TrimRightSpace(t);
    var i := |s| - |t|;
    assert TrimSpace(s) == r;
    Splice(s, i, t, r);
    assert AllSpace(t[|r|..]) && s[i + |r|..] == t[|r|..];
  }

  /** A suffix `t` of `s` from `i`, cut to its prefix `r`, sits in `s` at `i`. */
  lemma Splice(s: string, i: nat, t: string, r: string)
    requires i <= |s| && s[i..] == t && |r| <= |t| && t[..|r|] == r
    ensures i + |r| <= |s| && s == s[..i] + r + s[i + |r|..] && s[i + |r|..] == t[|r|..]
  {
    assert s[i..i + |r|] == r;
  }

  // ---------------------------------------------------------------------------
  // Go strings.Split / strings.Join

  /**
   * Go `strings.Split(s, [d])`: every piece between delimiters, empty pieces
   * included, so the result is never empty.
   */
  function Split(s: string, d: char): (r: seq<string>)
    ensures |r| >= 1
    ensures forall t <- r :: d !in t
    decreases |s|
  {
    var i := FirstIndex(s, d);
    if i == |s| then [s] else [s[..i]] + Split(s[i + 1..], d)
  }

  /** Go `strings.Join(ts, [d])` and the C++ iterator `join`. */
  function Join(ts: seq<string>, d: char): string
  {
    if |ts| == 0 then "" else if |ts| == 1 then ts[0] else ts[0] + [d] + Join(ts[1..], d)
  }

  lemma SplitNoDelimiter(s: string, d: char)
    requires d !in s
    ensures Split(s, d) == [s]
  {
  }

  lemma JoinCons(t: string, ts: seq<string>, d: char)
    requires |ts| >= 1
    ensures Join([t] + ts, d) == t + [d] + Join(ts, d)
  {
    assert ([t] + ts)[1..] == ts;
  }

  /** Joins of two and three pieces, written out. */
  lemma JoinSmall(a: string, b: string, c: string, d: char)
    ensures Join([a], d) == a
    ensures Join([a, b], d) == a + [d] + b
    ensures Join([a, b, c], d) == a + [d] + b + [d] + c
  {
    assert [a, b][1..] == [b];
    assert [a, b, c][1..] == [b, c];
    assert [b, c][1..] == [c];
    assert Join([b, c], d) == b + [d] + c;
    assert Join([a, b, c], d) == a + [d] + (b + [d] + c);
  }

  lemma JoinFour(a: string, b: string, c: string, e: string, d: char)
    ensures Join([a, b, c, e], d) == a + [d] + b + [d] + c + [d] + e
  {
    JoinCons(a, [b, c, e], d);
    JoinSmall(b, c, e, d);
    assert [a] + [b, c, e] == [a, b, c, e];
  }

  lemma FirstIndexAppend(a: string, x: string, d: char)
    ensures FirstIndex(a + x, d) == (if FirstIndex(a, d) < |a| then FirstIndex(a, d) else |a| + FirstIndex(x, d))
  {
    var i := FirstIndex(a, d);
    if i < |a| {
      FirstIndexUnique(a + x, d, i);
    } else {
      var k := FirstIndex(x, d);
      FirstIndexUnique(a + x, d, |a| + k);
    }
  }

  /** Splitting distributes over one delimiter. */
  lemma {:induction false} SplitAppend(a: string, d: char, b: string)
    ensures Split(a + [d] + b, d) == Split(a, d) + Split(b, d)
    decreases |a|
  {
    var i := FirstIndex(a, d);
    if i == |a| {
      SplitConsPiece(a, d, b);
      SplitNoDelimiter(a, d);
    } else {
      var p, r := a[..i], a[i + 1..];
      CutAround(a, i);
      assert d !in p;
      Regroup(p, d, r, b);
      SplitConsPiece(p, d, r + [d] + b);
      SplitAppend(r, d, b);
      SplitConsPiece(p, d, r);
      ConcatAssoc([p], Split(r, d), Split(b, d));
    }
  }

  /** `(p d r) d b` is `p d (r d b)`. */
  lemma Regroup<T>(p: seq<T>, d: T, r: seq<T>, b: seq<T>)
    ensures p + [d] + r + [d] + b == p + [d] + (r + [d] + b)
  {
  }

  lemma PrefixOfAppend<T>(x: seq<T>, y: seq<T>)
    ensures (x + y)[..|x|] == x && (x + y)[|x|..] == y
  {
  }

  /** Cutting a concatenation around a position of its front part. */
  lemma CutInside<T>(x: seq<T>, y: seq<T>, i: nat)
    requires i < |x|
    ensures (x + y)[..i] == x[..i] && (x + y)[i + 1..] == x[i + 1..] + y
  {
  }

  /** `Split` undoes `Join` when no piece contains the delimiter. */
  lemma {:induction false} SplitJoin(ts: seq<string>, d: char)
    requires |ts| >= 1
    requires forall t <- ts :: d !in t
    ensures Split(Join(ts, d), d) == ts
  {
    if |ts| == 1 {
      SplitNoDelimiter(ts[0], d);
    } else {
      SplitAppend(ts[0], d, Join(ts[1..], d));
      SplitNoDelimiter(ts[0], d);
      SplitJoin(ts[1..], d);
      assert ts == [ts[0]] + ts[1..];
    }
  }

  /** `Join` undoes `Split`. */
  lemma {:induction false} JoinSplit(s: string, d: char)
    ensures Join(Split(s, d), d) == s
    decreases |s|
  {
    var i := FirstIndex(s, d);
    if i < |s| {
      var rest := Split(s[i + 1..], d);
      assert Split(s, d) == [s[..i]] + rest;
      JoinSplit(s[i + 1..], d);
      JoinCons(s[..i], rest, d);
      CutAround(s, i);
    }
  }

  /** Text is the part before position `i`, the character there, and the part after. */
  lemma CutAround<T>(s: seq<T>, i: nat)
    requires i < |s|
    ensures s == s[..i] + [s[i]] + s[i + 1..]
  {
  }

  /** Joining two non-empty runs of pieces puts one delimiter between them. */
  lemma {:induction false} JoinAppend(xs: seq<string>, ys: seq<string>, d: char)
    requires |xs| >= 1 && |ys| >= 1
    ensures Join(xs + ys, d) == Join(xs, d) + [d] + Join(ys, d)
    decreases |xs|
  {
    if |xs| == 1 {
      JoinCons(xs[0], ys, d);
    } else {
      assert (xs + ys)[1..] == xs[1..] + ys;
      JoinAppend(xs[1..], ys, d);
      JoinCons(xs[0], xs[1..] + ys, d);
      assert xs + ys == [xs[0]] + (xs[1..] + ys);
    }
  }

  /** A character other than the delimiter occurs in a join only if it occurs in a piece. */
  lemma {:induction false} JoinFree(ts: seq<string>, d: char, c: char)
    requires c != d && forall t <- ts :: c !in t
    ensures c !in Join(ts, d)
  {
    if |ts| > 1 {
      assert forall t <- ts[1..] :: t in ts;
      JoinFree(ts[1..], d, c);
    }
  }

  /** Splicing a delimiter into the last piece is the same as splitting that piece in two. */
  lemma JoinSpliceLast(xs: seq<string>, a: string, b: string, d: char)
    requires |xs| >= 1
    ensures Join(xs + [a + [d] + b], d) == Join(xs + [a, b], d)
  {
    JoinAppend(xs, [a + [d] + b], d);
    JoinAppend(xs, [a, b], d);
    JoinSmall(a, b, b, d);
  }

  // ---------------------------------------------------------------------------
  // C++ split (std::getline)

  /**
   * The C++ `split`: repeated `std::getline(stream, token, d)`. Like Go's
   * `Split`, except that the piece after a final delimiter is never emitted
   * and the empty string yields no pieces at all.
   */
  function GetlineSplit(s: string, d: char): (r: seq<string>)
    ensures forall t <- r :: d !in t
    decreases |s|
  {
    if s == [] then []
    else
      var i := FirstIndex(s, d);
      if i == |s| then [s] else [s[..i]] + GetlineSplit(s[i + 1..], d)
  }

  lemma SplitConsPiece(p: string, d: char, rest: string)
    requires d !in p
    ensures Split(p + [d] + rest, d) == [p] + Split(rest, d)
  {
    var s := p + [d] + rest;
    CutAt(p, d, rest);
    FirstIndexUnique(s, d, |p|);
  }

  /** The pieces around an element placed between two sequences. */
  lemma CutAt<T>(x: seq<T>, e: T, y: seq<T>)
    ensures var s := x + [e] + y;
            |s| == |x| + 1 + |y| && s[|x|] == e && s[..|x|] == x && s[|x| + 1..] == y &&
            forall j :: 0 <= j < |x| ==> s[j] == x[j]
  {
  }

  /** A non-empty piece without the delimiter, then the delimiter, then more non-empty text. */
  lemma GetlineSplitCons(p: string, d: char, rest: string)
    requires d !in p && rest != []
    ensures GetlineSplit(p + [d] + rest, d) == [p] + GetlineSplit(rest, d)
  {
    var s := p + [d] + rest;
    CutAt(p, d, rest);
    FirstIndexUnique(s, d, |p|);
  }

  /** Non-empty text without the delimiter is one piece. */
  lemma GetlineSplitOne(s: string, d: char)
    requires d !in s && s != []
    ensures GetlineSplit(s, d) == [s]
  {
    FirstIndexUnique(s, d, |s|);
  }

  /** What the C++ `split` is meant to equal; see `GetlineSplitIsSplit`. */
  function SplitDroppingFinal(s: string, d: char): seq<string>
  {
    if s == [] then [] else if s[|s| - 1] == d then Split(s[..|s| - 1], d) else Split(s, d)
  }

  lemma SplitDroppingFinalCons(p: string, d: char, rest: string)
    requires d !in p && rest != []
    ensures SplitDroppingFinal(p + [d] + rest, d) == [p] + SplitDroppingFinal(rest, d)
  {
    var s := p + [d] + rest;
    if rest[|rest| - 1] == d {
      assert s[..|s| - 1] == p + [d] + rest[..|rest| - 1];
      SplitConsPiece(p, d, rest[..|rest| - 1]);
    } else {
      SplitConsPiece(p, d, rest);
    }
  }

  /** The C++ `split` is Go's `Split` after dropping one trailing delimiter. */
  lemma {:induction false} GetlineSplitIsSplit(s: string, d: char)
    ensures GetlineSplit(s, d) == SplitDroppingFinal(s, d)
    decreases |s|
  {
    if s != [] {
      var i := FirstIndex(s, d);
      if i < |s| {
        var p, rest := s[..i], s[i + 1..];
        assert GetlineSplit(s, d) == [p] + GetlineSplit(rest, d);
        CutAround(s, i);
        assert d !in p;
        if rest == [] {
          CutAt(p, d, rest);
          SplitNoDelimiter(p, d);
          ConcatEmpty([p]);
        } else {
          GetlineSplitIsSplit(rest, d);
          SplitDroppingFinalCons(p, d, rest);
        }
      } else {
        SplitNoDelimiter(s, d);
      }
    }
  }

  /** Concrete cases of the C++ `split`: nothing from "", one empty piece from ";". */
  lemma GetlineSplitEdgeCases()
    ensures GetlineSplit("", ';') == []
    ensures GetlineSplit(";", ';') == [""]
  {
    assert FirstIndex(";", ';') == 0;
    assert ";"[1..] == [];
  }

  /** An empty piece in the middle is kept; the empty piece after a final delimiter is not. */
  lemma GetlineSplitDropsLast()
    ensures GetlineSplit("a;;b;", ';') == ["a", "", "b"]
  {
    var s := "a;;b;";
    assert FirstIndex(s, ';') == 1 && s[..1] == "a" && s[2..] == ";b;";
    var t := ";b;";
    assert FirstIndex(t, ';') == 0 && t[..0] == "" && t[1..] == "b;";
    var u := "b;";
    assert FirstIndex(u, ';') == 1 && u[..1] == "b" && u[2..] == [];
  }

  /** `join(split(s, d), d)` gives back `s`, less a final delimiter. */
  lemma JoinGetlineSplit(s: string, d: char)
    ensures Join(GetlineSplit(s, d), d) == (if s != [] && s[|s| - 1] == d then s[..|s| - 1] else s)
  {
    GetlineSplitIsSplit(s, d);
    if s != [] {
      if s[|s| - 1] == d { JoinSplit(s[..|s| - 1], d); } else { JoinSplit(s, d); }
    }
  }

  /** On text whose last piece is not empty, the C++ `split` agrees with Go's. */
  lemma GetlineSplitJoin(ts: seq<string>, d: char)
    requires |ts| >= 1 && ts[|ts| - 1] != []
    requires forall t <- ts :: d !in t
    ensures GetlineSplit(Join(ts, d), d) == ts
  {
    JoinLast(ts, d);
    GetlineSplitIsSplit(Join(ts, d), d);
    SplitJoin(ts, d);
  }

  /** A join ends with its last piece. */
  lemma {:induction false} JoinLast(ts: seq<string>, d: char)
    requires |ts| >= 1
    ensures EndsWith(Join(ts, d), ts[|ts| - 1])
  {
    if |ts| > 1 {
      JoinLast(ts[1..], d);
      var j := Join(ts[1..], d);
      assert Join(ts, d) == (ts[0] + [d]) + j;
    }
  }

  /**
   * `s.substr(0, s.size() - last.size() - 1)` with `last` the final piece of
   * the C++ split: the text before that piece's delimiter. It keeps a
   * delimiter at its end exactly when `s` ends in one.
   */
  function BeforeLastPiece(s: string, d: char): (t: string)
    requires |GetlineSplit(s, d)| >= 2
    ensures var ps := GetlineSplit(s, d);
            t == Join(ps[..|ps| - 1], d) + (if s[|s| - 1] == d then [d] else [])
  {
    var ps := GetlineSplit(s, d);
    var n := |ps|;
    LastPiece(s, d);
    var j := Join(ps[..n - 1], d);
    var e: string := if s[|s| - 1] == d then [d] else [];
    assert s == (j + e) + (s[|j| + |e|..]);
    s[..|s| - |ps[n - 1]| - 1]
  }

  /**
   * Pieces joined and closed by a trailer token: the C++ split gives back the
   * pieces and the trailer, and the text before the trailer's delimiter is
   * the join of the pieces.
   */
  lemma TrailerPieces(ts: seq<string>, h: string, d: char)
    requires |ts| >= 1 && h != [] && d !in h && forall t <- ts :: d !in t
    ensures GetlineSplit(Join(ts, d) + [d] + h, d) == ts + [h]
    ensures BeforeLastPiece(Join(ts, d) + [d] + h, d) == Join(ts, d)
  {
    var raw := Join(ts, d) + [d] + h;
    TrailerSplit(ts, h, d);
    var ps := ts + [h];
    assert ps[..|ps| - 1] == ts;
    assert raw[|raw| - 1] != d by {
      assert raw[|raw| - 1] == h[|h| - 1];
      assert h[|h| - 1] in h;
    }
  }

  lemma TrailerSplit(ts: seq<string>, h: string, d: char)
    requires |ts| >= 1 && h != [] && d !in h && forall t <- ts :: d !in t
    ensures GetlineSplit(Join(ts, d) + [d] + h, d) == ts + [h]
  {
    var ps := ts + [h];
    JoinAppend(ts, [h], d);
    assert Join(ps, d) == Join(ts, d) + [d] + h;
    forall t <- ps ensures d !in t {
      if t != h { assert t in ts; }
    }
    GetlineSplitJoin(ps, d);
  }

  /** Text the C++ split cuts into two or more pieces is their join, the last piece, then a possible final delimiter. */
  lemma LastPiece(s: string, d: char)
    requires |GetlineSplit(s, d)| >= 2
    ensures var ps := GetlineSplit(s, d);
            s != [] &&
            s == Join(ps[..|ps| - 1], d) + [d] + ps[|ps| - 1] + (if s[|s| - 1] == d then [d] else [])
  {
    var ps := GetlineSplit(s, d);
    var n := |ps|;
    assert s != [];
    JoinGetlineSplit(s, d);
    assert ps == ps[..n - 1] + [ps[n - 1]];
    JoinAppend(ps[..n - 1], [ps[n - 1]], d);
    if s[|s| - 1] == d {
      assert s == s[..|s| - 1] + [d];
    }
  }

  /**
   * The C++ vector `join`: each element rendered, separated by `delimiter`.
   */
  function JoinEach<T>(xs: seq<T>, render: T -> string, delimiter: string): string
  {
    if |xs| == 0 then ""
    else if |xs| == 1 then render(xs[0])
    else render(xs[0]) + delimiter + JoinEach(xs[1..], render, delimiter)
  }

  /** A character in neither the delimiter nor any rendered element is not in the vector `join`. */
  lemma {:induction false} JoinEachFree<T>(xs: seq<T>, render: T -> string, delimiter: string, c: char)
    requires c !in delimiter && forall x <- xs :: c !in render(x)
    ensures c !in JoinEach(xs, render, delimiter)
  {
    if |xs| > 1 {
      assert xs[0] in xs;
      assert forall x <- xs[1..] :: x in xs;
      JoinEachFree(xs[1..], render, delimiter, c);
    } else if |xs| == 1 {
      assert xs[0] in xs;
    }
  }

  /** The vector `join` is the iterator `join` over the rendered elements. */
  lemma {:induction false} JoinEachIsJoin<T>(xs: seq<T>, render: T -> string, d: char)
    ensures JoinEach(xs, render, [d]) == Join(seq(|xs|, i requires 0 <= i < |xs| => render(xs[i])), d)
  {
    var rs := seq(|xs|, i requires 0 <= i < |xs| => render(xs[i]));
    if |xs| > 1 {
      JoinEachIsJoin(xs[1..], render, d);
      assert rs[1..] == seq(|xs[1..]|, i requires 0 <= i < |xs[1..]| => render(xs[1..][i]));
    }
  }

  // ---------------------------------------------------------------------------
  // UTF-8

  /** The UTF-8 bytes of one Unicode scalar value. */
  function EncodeChar(c: char): (r: seq<Byte>)
    ensures 1 <= |r| <= 4
    ensures |r| == 1 <==> c as int < 0x80
    ensures |r| == 1 ==> r[0] == c as int
    ensures |r| > 1 ==> r[0] >= 0xC0
    ensures forall i :: 1 <= i < |r| ==> IsContinuation(r[i])
  {
    var cp := c as int;
    if cp < 0x80 then [cp]
    else if cp < 0x800 then [0xC0 + cp / 0x40, 0x80 + cp % 0x40]
    else if cp < 0x10000 then [0xE0 + cp / 0x1000, 0x80 + (cp / 0x40) % 0x40, 0x80 + cp % 0x40]
    else [0xF0 + cp / 0x40000, 0x80 + (cp / 0x1000) % 0x40, 0x80 + (cp / 0x40) % 0x40, 0x80 + cp % 0x40]
  }

  /** The bytes Go's `[]byte(s)` and C++'s `std::string` hold for the text `s`. */
  function Utf8(s: string): (r: seq<Byte>)
    ensures |r| >= |s|
  {
    if s == [] then [] else EncodeChar(s[0]) + Utf8(s[1..])
  }

  lemma {:induction false} Utf8Append(a: string, b: string)
    ensures Utf8(a + b) == Utf8(a) + Utf8(b)
  {
    if a != [] {
      ConsAppend(a, b);
      Utf8Append(a[1..], b);
      ConcatAssoc(EncodeChar(a[0]), Utf8(a[1..]), Utf8(b));
    } else {
      EmptyAppend(b);
    }
  }

  lemma EmptyAppend<T>(x: seq<T>)
    ensures [] + x == x
  {
  }

  /** Text of ASCII characters has one byte per character, its code. */
  lemma {:induction false} Utf8Ascii(s: string)
    requires forall i :: 0 <= i < |s| ==> s[i] as int < 0x80
    ensures |Utf8(s)| == |s|
    ensures forall i :: 0 <= i < |s| ==> Utf8(s)[i] == s[i] as int
  {
    if s != [] {
      Utf8Ascii(s[1..]);
      assert Utf8(s) == [s[0] as int] + Utf8(s[1..]);
    }
  }

  lemma Utf8Snoc(s: string)
    requires s != []
    ensures Utf8(s) == Utf8(s[..|s| - 1]) + EncodeChar(s[|s| - 1])
  {
    var c := s[|s| - 1];
    var init := s[..|s| - 1];
    assert s == init + [c];
    Utf8Append(init, [c]);
    Utf8Single(c);
  }

  lemma Utf8Single(c: char)
    ensures Utf8([c]) == EncodeChar(c)
  {
    assert [c][1..] == [];
    assert EncodeChar(c) + [] == EncodeChar(c);
  }

  /** The last `k` bytes of `b` are all ASCII. */
  predicate AsciiTail(b: seq<Byte>, k: nat) {
    k <= |b| && forall i :: |b| - k <= i < |b| ==> b[i] < 0x80
  }

  /** A text whose last byte is ASCII ends in that ASCII character. */
  lemma LastByteAscii(s: string)
    requires s != [] && Utf8(s)[|Utf8(s)| - 1] < 0x80
    ensures s[|s| - 1] as int < 0x80
    ensures Utf8(s) == Utf8(s[..|s| - 1]) + [s[|s| - 1] as int]
  {
    Utf8Snoc(s);
    var e := EncodeChar(s[|s| - 1]);
    assert Utf8(s)[|Utf8(s)| - 1] == e[|e| - 1];
  }

  /** Extends a split of the bytes of `s[..|s| - 1]` by one final ASCII character. */
  lemma Utf8TailStep(s: string, k: nat)
    requires 1 <= k <= |s| && s[|s| - 1] as int < 0x80
    requires Utf8(s) == Utf8(s[..|s| - 1]) + [s[|s| - 1] as int]
    requires Utf8(s[..|s| - k]) + Utf8(s[|s| - k..|s| - 1]) == Utf8(s[..|s| - 1])
    requires |Utf8(s[|s| - k..|s| - 1])| == k - 1
    ensures Utf8(s[..|s| - k]) + Utf8(s[|s| - k..]) == Utf8(s)
    ensures |Utf8(s[|s| - k..])| == k
  {
    var c := s[|s| - 1];
    var tail := s[|s| - k..|s| - 1];
    SnocSlice(s, |s| - k);
    Utf8Append(tail, [c]);
    Utf8Single(c);
    ConcatAssoc(Utf8(s[..|s| - k]), Utf8(tail), [c as int]);
  }

  /** A suffix is the suffix without the last element, then the last element. */
  lemma SnocSlice<T>(s: seq<T>, j: nat)
    requires j < |s|
    ensures s[j..] == s[j..|s| - 1] + [s[|s| - 1]]
  {
  }

  /** The last `k` elements are the last `k - 1` elements before the final one, then that one. */
  lemma InitSlices<T>(s: seq<T>, k: nat)
    requires 1 <= k <= |s|
    ensures var init := s[..|s| - 1];
            init[..|init| - (k - 1)] == s[..|s| - k] && init[|init| - (k - 1)..] == s[|s| - k..|s| - 1]
  {
  }

  /** Every slice of a sequence from its length, and up to its length. */
  lemma SliceEnds<T>(s: seq<T>)
    ensures s[|s|..] == [] && s[..|s|] == s
  {
  }

  /** ASCII bytes at the end of `b + [x]` reach one byte less far into `b`. */
  lemma AsciiTailInit(b: seq<Byte>, x: Byte, k: nat)
    requires 1 <= k && AsciiTail(b + [x], k)
    ensures AsciiTail(b, k - 1)
  {
    forall i | |b| - (k - 1) <= i < |b|
      ensures b[i] < 0x80
    {
      assert (b + [x])[i] == b[i];
    }
  }

  /**
   * When the last `k` bytes of a text's UTF-8 form are all ASCII, they are
   * exactly the encoding of its last `k` characters.
   */
  lemma {:induction false} Utf8AsciiTail(s: string, k: nat)
    requires AsciiTail(Utf8(s), k)
    ensures k <= |s|
    ensures Utf8(s[..|s| - k]) + Utf8(s[|s| - k..]) == Utf8(s)
    ensures |Utf8(s[|s| - k..])| == k
  {
    if k == 0 {
      SliceEnds(s);
      ConcatEmpty(Utf8(s));
    } else {
      assert s != [];
      var init := s[..|s| - 1];
      LastByteAscii(s);
      AsciiTailInit(Utf8(init), s[|s| - 1] as int, k);
      Utf8AsciiTail(init, k - 1);
      InitSlices(s, k);
      Utf8TailStep(s, k);
    }
  }

  /** Indexing the back part of a concatenation. */
  lemma AppendIndex<T>(x: seq<T>, y: seq<T>, j: nat)
    requires j < |y|
    ensures (x + y)[|x| + j] == y[j]
  {
  }

  /** A sequence is its prefix up to `k` followed by the rest. */
  lemma SplitAtIndex<T>(s: seq<T>, k: nat)
    requires k <= |s|
    ensures s == s[..k] + s[k..]
  {
  }

  lemma ConcatEmpty<T>(x: seq<T>)
    ensures x + [] == x
  {
  }

  // ---------------------------------------------------------------------------
  // Byte loops over text

  /** A continuation byte `10xxxxxx` of a multi-byte UTF-8 sequence. */
  predicate IsContinuation(x: Byte) {
    0x80 <= x < 0xC0
  }

  /**
   * Bytes `i` and `i + 1` follow each other as they do in UTF-8: a lead byte
   * is followed by a continuation byte, an ASCII byte is not.
   */
  predicate ShapedAt(b: seq<Byte>, i: nat)
    requires i + 1 < |b|
  {
    && (b[i] >= 0xC0 ==> IsContinuation(b[i + 1]))
    && (b[i] < 0x80 ==> !IsContinuation(b[i + 1]))
  }

  /** A condition every UTF-8 encoding meets (see `Utf8IsShaped`). */
  predicate Utf8Shaped(b: seq<Byte>) {
    forall i: nat :: i + 1 < |b| ==> ShapedAt(b, i)
  }

  /** A text's encoding starts with an ASCII byte or a lead byte. */
  lemma Utf8First(t: string)
    requires t != []
    ensures Utf8(t)[0] < 0x80 || Utf8(t)[0] >= 0xC0
  {
    assert Utf8(t) == EncodeChar(t[0]) + Utf8(t[1..]);
  }

  lemma {:induction false} Utf8IsShaped(t: string)
    ensures Utf8Shaped(Utf8(t))
    decreases |t|
  {
    if t != [] {
      var e, u := EncodeChar(t[0]), Utf8(t[1..]);
      var b := Utf8(t);
      assert b == e + u;
      Utf8IsShaped(t[1..]);
      forall i: nat | i + 1 < |b|
        ensures ShapedAt(b, i)
      {
        if i + 1 < |e| {
          assert b[i] == e[i] && b[i + 1] == e[i + 1];
        } else if i + 1 == |e| {
          assert b[i] == e[i] && b[i + 1] == u[0];
          Utf8First(t[1..]);
        } else {
          assert b[i] == u[i - |e|] && b[i + 1] == u[i + 1 - |e|];
          assert ShapedAt(u, i - |e|);
        }
      }
    }
  }

  /** Bytes without the UTF-8 shape are the encoding of no text. */
  lemma NoText(b: seq<Byte>)
    requires !Utf8Shaped(b)
    ensures forall t :: Utf8(t) != b
  {
    forall t
      ensures Utf8(t) != b
    {
      Utf8IsShaped(t);
    }
  }

  /**
   * The bytes of `s`, one character per byte (codes 0 to 255): the text a
   * loop over Go's `len(s)` or C++'s `size()` walks.
   */
  function ByteView(s: string): (r: string)
    ensures |r| == |Utf8(s)|
    ensures forall i :: 0 <= i < |r| ==> r[i] as int == Utf8(s)[i]
  {
    var b := Utf8(s);
    seq(|b|, i requires 0 <= i < |b| => b[i] as char)
  }

  /** The byte view of ASCII text is the text itself. */
  lemma ByteViewAscii(s: string)
    requires forall i :: 0 <= i < |s| ==> s[i] as int < 0x80
    ensures ByteView(s) == s
  {
    Utf8Ascii(s);
  }

  /** The `i`-th two-element chunk, as the byte loops cut it. */
  function Chunk<T>(s: seq<T>, i: nat): seq<T>
    requires 2 * i + 2 <= |s|
  {
    s[2 * i..2 * i + 2]
  }

  /** The chunks after the first are the chunks of the rest. */
  lemma ChunksAfter<T>(s: seq<T>)
    requires |s| >= 2
    ensures Chunk(s, 0) == s[..2]
    ensures forall i :: 0 <= i < (|s| - 2) / 2 ==> Chunk(s[2..], i) == Chunk(s, i + 1)
    ensures forall j :: 1 <= j < |s| / 2 ==> Chunk(s, j) == Chunk(s[2..], j - 1)
  {
  }

  /**
   * The MAC loops of Go's `ab.go` and C++'s `ble_advertisement.cpp` on the
   * bytes of a text: two bytes at a time, with a `:` (byte 0x3A) between
   * pairs; a final single byte stays alone.
   */
  function PairBytes(b: seq<Byte>): (r: seq<Byte>)
    ensures |b| >= 1 ==> |r| == |b| + (|b| - 1) / 2 && r[0] == b[0]
    ensures |b| == 0 ==> r == []
    decreases |b|
  {
    if |b| <= 2 then b else b[..2] + [0x3A] + PairBytes(b[2..])
  }

  /** The number of UTF-8 bytes of `c`. */
  function Width(c: char): (n: nat)
    ensures n == |EncodeChar(c)|
  {
    var cp := c as int;
    if cp < 0x80 then 1 else if cp < 0x800 then 2 else if cp < 0x10000 then 3 else 4
  }

  /**
   * The characters the first two bytes of `s` make up when a character ends
   * exactly at byte 2: one two-byte character or two one-byte ones; 0 when
   * byte 2 falls inside a character or `s` is shorter.
   */
  function PairUnit(s: string): (k: nat)
    ensures k <= |s| && k <= 2
  {
    if |s| >= 1 && Width(s[0]) == 2 then 1
    else if |s| >= 2 && Width(s[0]) == 1 && Width(s[1]) == 1 then 2
    else 0
  }

  /** The first pair of characters holds two bytes. */
  lemma PrefixBytes(s: string)
    requires PairUnit(s) > 0
    ensures |Utf8(s[..PairUnit(s)])| == 2
    ensures Utf8(s) == Utf8(s[..PairUnit(s)]) + Utf8(s[PairUnit(s)..])
  {
    var k := PairUnit(s);
    assert s == s[..k] + s[k..];
    Utf8Append(s[..k], s[k..]);
    if k == 1 {
      Utf8Single(s[0]);
    } else {
      assert s[..2] == [s[0]] + [s[1]];
      Utf8Append([s[0]], [s[1]]);
      Utf8Single(s[0]);
      Utf8Single(s[1]);
    }
  }

  /** `PairUnit` looks only at the first pair. */
  lemma PairUnitPrefix(s: string, t: string)
    requires PairUnit(s) > 0 && PairUnit(s) <= |t| && t[..PairUnit(s)] == s[..PairUnit(s)]
    ensures PairUnit(t) == PairUnit(s)
  {
    var k := PairUnit(s);
    assert t[0] == t[..k][0] == s[0];
    if k == 2 {
      assert t[1] == t[..k][1] == s[1];
    }
  }

  /**
   * Pairing on characters: the first pair of `s`, `:`, and the pairing of
   * the rest; `None` where a pair would end inside a character.
   */
  function PairText(s: string): (r: Option<string>)
    ensures r.Some? && s != [] ==> r.value != [] && r.value[0] == s[0]
    ensures r.Some? && r.value != [] ==> s != []
    ensures r.Some? ==> forall i :: 0 <= i < |r.value| ==> r.value[i] == ':' || r.value[i] in s
    decreases |s|
  {
    var k := PairUnit(s);
    if s == [] then Some([])
    else if k == 0 then None
    else if k == |s| then Some(s)
    else
      match PairText(s[k..])
      case None => None
      case Some(rest) => Some(s[..k] + [':'] + rest)
  }

  /** `PairText` on a text longer than its first pair. */
  lemma PairTextCons(s: string, rest: string)
    requires 0 < PairUnit(s) < |s| && PairText(s[PairUnit(s)..]) == Some(rest)
    ensures PairText(s) == Some(s[..PairUnit(s)] + [':'] + rest)
  {
  }

  /**
   * On a text with an even number of bytes, `PairText` is `PairBytes` seen
   * as text: it gives the text whose UTF-8 form is what the byte loop
   * builds, and `None` exactly when those bytes are no UTF-8 text.
   */
  lemma {:induction false} PairTextBytes(s: string)
    requires |Utf8(s)| % 2 == 0
    ensures PairText(s).Some? ==> Utf8(PairText(s).value) == PairBytes(Utf8(s))
    ensures PairText(s).None? ==> !Utf8Shaped(PairBytes(Utf8(s)))
    decreases |s|
  {
    var k := PairUnit(s);
    if s == [] {
    } else if k == 0 {
      MisalignedPair(s);
    } else if k == |s| {
      PrefixBytes(s);
      assert s[..k] == s;
    } else {
      PrefixBytes(s);
      PairTextBytes(s[k..]);
      PairStep(s, k);
      match PairText(s[k..])
      case None =>
        UnshapedSuffix(Utf8(s[..k]) + [0x3A], PairBytes(Utf8(s[k..])));
      case Some(rest) =>
        Utf8Append(s[..k] + [':'], rest);
        Utf8Append(s[..k], [':']);
        Utf8Single(':');
    }
  }

  /** The text `PairText` gives has the UTF-8 form the byte loop builds; none has it when `PairText` fails. */
  lemma PairTextText(s: string)
    requires |Utf8(s)| % 2 == 0
    ensures PairText(s).Some? <==> Utf8Shaped(PairBytes(Utf8(s)))
    ensures PairText(s).Some? ==> Utf8(PairText(s).value) == PairBytes(Utf8(s))
    ensures PairText(s).None? ==> forall t :: Utf8(t) != PairBytes(Utf8(s))
  {
    PairTextBytes(s);
    if PairText(s).Some? {
      Utf8IsShaped(PairText(s).value);
    } else {
      NoText(PairBytes(Utf8(s)));
    }
  }

  /** One pair of `PairBytes` over a text whose first `k` characters make two bytes. */
  lemma PairStep(s: string, k: nat)
    requires 0 < k < |s| && PairUnit(s) == k
    ensures PairBytes(Utf8(s)) == Utf8(s[..k]) + [0x3A] + PairBytes(Utf8(s[k..]))
  {
    PrefixBytes(s);
    var b := Utf8(s);
    assert b == Utf8(s[..k]) + Utf8(s[k..]);
    assert Utf8(s[k..]) != [] by {
      assert Utf8(s[k..]) == EncodeChar(s[k..][0]) + Utf8(s[k..][1..]);
    }
    assert b[..2] == Utf8(s[..k]) && b[2..] == Utf8(s[k..]);
  }

  /** A misplaced byte pair in the tail stays one after a prefix. */
  lemma UnshapedSuffix(x: seq<Byte>, y: seq<Byte>)
    requires !Utf8Shaped(y)
    ensures !Utf8Shaped(x + y)
  {
    var i: nat :| i + 1 < |y| && !ShapedAt(y, i);
    var b := x + y;
    assert b[|x| + i] == y[i] && b[|x| + i + 1] == y[i + 1];
    assert !ShapedAt(b, |x| + i);
  }

  /**
   * When byte 2 of an even-length text falls inside a character, `PairBytes`
   * puts `:` just after a lead byte or just before a continuation byte.
   */
  lemma MisalignedPair(s: string)
    requires s != [] && |Utf8(s)| % 2 == 0 && PairUnit(s) == 0
    ensures !Utf8Shaped(PairBytes(Utf8(s)))
  {
    var b := Utf8(s);
    var e0 := EncodeChar(s[0]);
    assert b == e0 + Utf8(s[1..]);
    if |e0| >= 3 {
      var p := PairBytes(b);
      assert p == b[..2] + [0x3A] + PairBytes(b[2..]);
      assert p[2] == 0x3A && p[3] == b[2] == e0[2];
      assert !ShapedAt(p, 2);
    } else {
      assert |e0| == 1;
      var e1 := EncodeChar(s[1]);
      assert Utf8(s[1..]) == e1 + Utf8(s[1..][1..]);
      assert b[1] == e1[0] >= 0xC0;
      var p := PairBytes(b);
      assert p == b[..2] + [0x3A] + PairBytes(b[2..]);
      assert p[1] == b[1] && p[2] == 0x3A;
      assert !ShapedAt(p, 1);
    }
  }
}
