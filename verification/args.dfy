/**
 * The argument-list codec of golang/v3/args.go: `key:value` items separated
 * by `,`, with a fixed set of key rewrites and a value type inferred from
 * the value's text. The Ps, Pd and Ac packets carry such lists.
 */
module Args {
  import opened Results
  import opened Strings
  import opened Numbers
  import opened Floats

  /** The dynamic types `parseArgs` produces: Go `int`, `float64`, `bool` and `string`. */
  datatype Value = IntV(i: Int64) | FloatV(x: Float) | BoolV(b: bool) | StrV(s: string)

  type ArgMap = map<string, Value>

  // ---------------------------------------------------------------------------
  // Keys

  /** The key pattern `^io[0-9]+\.<suffix>$`. */
  predicate IoKey(key: string, suffix: string) {
    |key| > 3 + |suffix| && key[..2] == "io" && key[|key| - |suffix| - 1..] == "." + suffix &&
    AllDigits(key[2..|key| - |suffix| - 1], 10)
  }

  /** `extractGpio`: drop the first `io.`, then the first occurrence of `suffix`. */
  function ExtractGpio(input: string, suffix: string): string
    requires |suffix| > 0
  {
    ReplaceFirst(ReplaceFirst(input, "io.", ""), suffix, "")
  }

  /** The suffixes the io patterns test, none of which contains a `.`. */
  predicate DotFree(s: string) { '.' !in s }

  /** In a key the io pattern matches, the only `.` is the one before the suffix. */
  lemma IoKeyDot(key: string, suffix: string)
    requires IoKey(key, suffix) && DotFree(suffix)
    ensures FirstIndex(key, '.') == |key| - |suffix| - 1
    ensures key[|key| - |suffix|..] == suffix
    ensures forall j :: 0 <= j < |key| - |suffix| - 1 ==> key[j] != '.'
  {
    var p := |key| - |suffix| - 1;
    assert key[p] == '.' by { assert key[p..][0] == ("." + suffix)[0]; }
    assert key[p + 1..] == suffix by { assert key[p..] == "." + suffix; }
    forall j | 0 <= j < p
      ensures key[j] != '.'
    {
      if j >= 2 {
        assert key[j] == key[2..p][j - 2];
      } else {
        assert key[j] == key[..2][j];
      }
    }
    FirstIndexUnique(key, '.', p);
  }

  /** At most one io pattern matches a key. */
  lemma IoKeySuffixUnique(key: string, s1: string, s2: string)
    requires IoKey(key, s1) && DotFree(s1) && IoKey(key, s2) && DotFree(s2)
    ensures s1 == s2
  {
    IoKeyDot(key, s1);
    IoKeyDot(key, s2);
  }

  /**
   * For a key the io pattern matches, the `io.` replacement finds nothing
   * (the digits stand between `io` and the dot), and the suffix replacement
   * removes the final `.suffix`: what remains is `io` and the digits.
   */
  lemma ExtractGpioIo(key: string, suffix: string)
    requires IoKey(key, suffix) && DotFree(suffix)
    ensures ExtractGpio(key, "." + suffix) == key[..|key| - |suffix| - 1]
  {
    var p := |key| - |suffix| - 1;
    IoKeyDot(key, suffix);
    assert forall j :: p < j < |key| ==> key[j] != '.' by {
      forall j | p < j < |key|
        ensures key[j] != '.'
      {
        assert key[j] == key[|key| - |suffix|..][j - p - 1];
      }
    }
    assert IndexOf(key, "io.").None? by {
      NoIoDot(key, suffix);
    }
    var tail := "." + suffix;
    assert OccursAt(key, tail, p);
    assert forall j :: 0 <= j < p ==> !OccursAt(key, tail, j) by {
      forall j | 0 <= j < p
        ensures !OccursAt(key, tail, j)
      {
        if OccursAt(key, tail, j) {
          assert false;
        }
      }
    }
    IndexFromFirst(key, tail, p);
    assert key[..p] + "" + key[p + |tail|..] == key[..p];
  }

  /** A key the io pattern matches has no `io.` anywhere: a digit stands before its only dot. */
  lemma NoIoDot(key: string, suffix: string)
    requires IoKey(key, suffix) && DotFree(suffix)
    ensures forall j :: 0 <= j ==> !OccursAt(key, "io.", j)
  {
    var p := |key| - |suffix| - 1;
    IoKeyDot(key, suffix);
    forall j | 0 <= j
      ensures !OccursAt(key, "io.", j)
    {
      if j + 3 <= |key| {
        assert key[j..j + 3][1] == key[j + 1] && key[j..j + 3][2] == key[j + 2];
        if j + 2 < p {
          assert key[j + 2] != '.';
        } else if j + 2 > p {
          assert key[j + 2] == suffix[j + 1 - p];
        } else {
          assert key[j + 1] == key[2..p][p - 3];
          assert IsDecimal(key[j + 1]);
        }
      }
    }
  }

  /** The leftmost occurrence is the one with no occurrence before it. */
  lemma IndexFromFirst(s: string, sub: string, p: nat)
    requires OccursAt(s, sub, p)
    requires forall j :: 0 <= j < p ==> !OccursAt(s, sub, j)
    ensures IndexOf(s, sub) == Some(p)
  {
  }

  /**
   * The io patterns in the order the switch tests them: the suffix the key
   * must end with and the name that replaces it.
   */
  const IoPatterns: seq<(string, string)> := [
    ("di", ".digital.input"), ("do", ".digital.output"), ("ai", ".analog.input"),
    ("ao", ".analog.output"), ("counter", ".event.count")]

  /** No suffix contains a dot, and each suffix has one name. */
  lemma IoPatternsFacts()
    ensures forall p <- IoPatterns :: DotFree(p.0)
    ensures forall p <- IoPatterns, q <- IoPatterns :: p.0 == q.0 ==> p == q
  {
  }

  /** The first pattern, in switch order, whose suffix the key matches. */
  function IoMatch(key: string, pats: seq<(string, string)>): (r: Option<(string, string)>)
    ensures r.Some? ==> r.value in pats && IoKey(key, r.value.0)
    ensures r.None? ==> forall p <- pats :: !IoKey(key, p.0)
  {
    if pats == [] then None
    else if IoKey(key, pats[0].0) then Some(pats[0])
    else IoMatch(key, pats[1..])
  }

  /** `"gpio." + extractGpio(key, "." + suffix) + name`. */
  function Gpio(key: string, suffix: string, name: string): string {
    "gpio." + ExtractGpio(key, "." + suffix) + name
  }

  /** The key rewriting of `parseArgs`: the first matching case wins, other keys pass unchanged. */
  function RewriteKey(key: string): (r: string)
    ensures !StartsWith(key, "io") && key != "report" && key != "confiot_ble" && key != "confiot_serial" ==> r == key
    ensures key == "report" ==> r == "report.code"
    ensures key == "confiot_ble" ==> r == "ble.confiot.connection.status"
    ensures key == "confiot_serial" ==> r == "serial.confiot.connection.status"
  {
    IoKeyStart(key);
    match IoMatch(key, IoPatterns)
    case Some((suffix, name)) => Gpio(key, suffix, name)
    case None =>
      if key == "report" then "report.code"
      else if key == "confiot_ble" then "ble.confiot.connection.status"
      else if key == "confiot_serial" then "serial.confiot.connection.status"
      else key
  }

  /** Every io pattern requires the `io` prefix. */
  lemma IoKeyStart(key: string)
    ensures forall suffix :: IoKey(key, suffix) ==> StartsWith(key, "io")
    ensures key == "report" || key == "confiot_ble" || key == "confiot_serial" ==> !StartsWith(key, "io")
  {
    if key == "report" || key == "confiot_ble" || key == "confiot_serial" {
      assert key[0] != 'i';
    }
  }

  /**
   * A key `io<N>.<suffix>` the io pattern matches becomes `gpio.io<N>` + the
   * suffix's new name: `extractGpio` looks for `io.`, which never occurs in
   * such a key, so the `io` is kept (`io12.di` becomes `gpio.io12.digital.input`).
   */
  lemma RewriteIoKey(key: string, suffix: string, name: string)
    requires (suffix, name) in IoPatterns && IoKey(key, suffix)
    ensures RewriteKey(key) == "gpio.io" + key[2..|key| - |suffix| - 1] + name
  {
    RewriteMatched(key, suffix, name);
    PatternDotFree(suffix, name);
    ExtractGpioIo(key, suffix);
    IoDigits(key, suffix, name);
  }

  /** The pattern whose suffix a key matches is the one the switch picks. */
  lemma IoMatchUnique(key: string, suffix: string, name: string)
    requires (suffix, name) in IoPatterns && IoKey(key, suffix)
    ensures IoMatch(key, IoPatterns) == Some((suffix, name))
  {
    IoPatternsFacts();
    var m := IoMatch(key, IoPatterns);
    assert m.Some?;
    IoKeySuffixUnique(key, suffix, m.value.0);
  }

  lemma PatternDotFree(suffix: string, name: string)
    requires (suffix, name) in IoPatterns
    ensures DotFree(suffix)
  {
    IoPatternsFacts();
  }

  /** A key an io pattern matches is rewritten by that pattern. */
  lemma RewriteMatched(key: string, suffix: string, name: string)
    requires (suffix, name) in IoPatterns && IoKey(key, suffix)
    ensures RewriteKey(key) == Gpio(key, suffix, name)
  {
    IoMatchUnique(key, suffix, name);
  }

  /** What the rewriting keeps of an io key is `io` and its digits. */
  lemma IoDigits(key: string, suffix: string, name: string)
    requires IoKey(key, suffix)
    ensures "gpio." + key[..|key| - |suffix| - 1] + name == "gpio.io" + key[2..|key| - |suffix| - 1] + name
  {
    assert key[..|key| - |suffix| - 1] == "io" + key[2..|key| - |suffix| - 1];
  }

  /** The `ble.<N>.*` patterns are compiled but never tested: such keys pass unchanged. */
  lemma BleKeysUnchanged(key: string)
    requires StartsWith(key, "ble.")
    ensures RewriteKey(key) == key
  {
    assert key[0] == 'b';
    assert !StartsWith(key, "io");
  }

  // ---------------------------------------------------------------------------
  // Values

  /** `^\d+$`: one or more ASCII digits. */
  predicate IsDigitRun(s: string) { s != [] && AllDigits(s, 10) }

  /** `^\d+\.\d+$`: digits, one dot, digits. */
  predicate IsDecimalFraction(s: string) {
    var i := FirstIndex(s, '.');
    0 < i < |s| - 1 && IsDigitRun(s[..i]) && IsDigitRun(s[i + 1..])
  }

  /**
   * The type inference of `parseArgs`. `None` is the case in which the entry
   * is dropped: a conversion fails, which for these patterns means an
   * all-digit value too large for `Atoi` or a decimal `ParseFloat` rejects
   * as out of range.
   */
  function Classify(ft: FloatText, value: string): (r: Option<Value>)
    ensures r.None? <==>
              (IsDigitRun(value) && ValueOf(value, 10) >= TwoTo63) ||
              (!IsDigitRun(value) && IsDecimalFraction(value) && Parse(ft, value).None?)
    ensures IsDigitRun(value) && ValueOf(value, 10) < TwoTo63 ==> r == Some(IntV(ValueOf(value, 10)))
    ensures !IsDigitRun(value) && IsDecimalFraction(value) && Parse(ft, value).Some? ==>
              r == Some(FloatV(Parse(ft, value).value))
    ensures value == "true" ==> r == Some(BoolV(true))
    ensures value == "false" ==> r == Some(BoolV(false))
    ensures r.Some? && r.value.StrV? <==>
              !IsDigitRun(value) && !IsDecimalFraction(value) && value != "true" && value != "false"
    ensures r.Some? && r.value.StrV? ==> r.value.s == value
  {
    if IsDigitRun(value) then
      AtoiDigits(value);
      match Atoi(value)
      case None => None
      case Some(n) => Some(IntV(n))
    else if IsDecimalFraction(value) then
      match Parse(ft, value)
      case None => None
      case Some(x) => Some(FloatV(x))
    else if value == "true" then Some(BoolV(true))
    else if value == "false" then Some(BoolV(false))
    else Some(StrV(value))
  }

  /** `Atoi` of a digit run is its value, when that fits in 64 bits. */
  lemma AtoiDigits(s: string)
    requires IsDigitRun(s)
    ensures Atoi(s).Some? <==> ValueOf(s, 10) < TwoTo63
    ensures Atoi(s).Some? ==> Atoi(s).value == ValueOf(s, 10)
  {
    PowFacts();
    assert s[0] != '-' && s[0] != '+' by { assert InBase(s[0], 10); }
  }

  /**
   * The verb a float is written with: `%f` in the Ps and Pd encoders, `%v`
   * in the Ac encoder. Both write the other types alike.
   */
  datatype Verb = PercentF | PercentV

  /** The value text an encoder writes: `%s`, `%d`, `%t`, and the float by its verb. */
  function Render(ft: FloatText, verb: Verb, v: Value): string {
    match v
    case IntV(i) => FormatInt(i)
    case FloatV(x) => if verb == PercentF then Format(ft, x) else General(ft, x)
    case BoolV(b) => if b then "true" else "false"
    case StrV(s) => s
  }

  // ---------------------------------------------------------------------------
  // Items and the map

  /**
   * One `,`-separated item: skipped without a `:`; otherwise the rewritten key
   * before the first `:` and the value after it.
   */
  function Entry(ft: FloatText, part: string): (r: Option<(string, Value)>)
    ensures ':' !in part ==> r.None?
    ensures r.Some? ==> r.value.0 == RewriteKey(part[..FirstIndex(part, ':')])
  {
    var i := FirstIndex(part, ':');
    if i == |part| then None
    else
      match Classify(ft, part[i + 1..])
      case None => None
      case Some(v) => Some((RewriteKey(part[..i]), v))
  }

  /** The value is `strings.Join(subparts[1:], ":")`, everything after the first `:`. */
  lemma ValueAfterFirstColon(part: string)
    requires ':' in part
    ensures |Split(part, ':')| >= 2
    ensures Split(part, ':')[0] == part[..FirstIndex(part, ':')]
    ensures Join(Split(part, ':')[1..], ':') == part[FirstIndex(part, ':') + 1..]
  {
    var i := FirstIndex(part, ':');
    assert Split(part, ':') == [part[..i]] + Split(part[i + 1..], ':');
    assert Split(part, ':')[1..] == Split(part[i + 1..], ':');
    JoinSplit(part[i + 1..], ':');
  }

  /** What each item contributes: `None` for a skipped item. */
  type Contribution = Option<(string, Value)>

  /** The contributions folded into a map left to right; a later one overwrites an earlier one. */
  function Fold(es: seq<Contribution>): ArgMap
    decreases |es|
  {
    if es == [] then map[]
    else
      var m := Fold(es[..|es| - 1]);
      match es[|es| - 1]
      case None => m
      case Some(kv) => m[kv.0 := kv.1]
  }

  function Entries(ft: FloatText, tokens: seq<string>): (r: seq<Contribution>)
    ensures |r| == |tokens| && forall i :: 0 <= i < |tokens| ==> r[i] == Entry(ft, tokens[i])
  {
    seq(|tokens|, i requires 0 <= i < |tokens| => Entry(ft, tokens[i]))
  }

  /** The items of a `,`-split text folded into a map. */
  function Collect(ft: FloatText, tokens: seq<string>): ArgMap {
    Fold(Entries(ft, tokens))
  }

  /** `parseArgs`: the empty text is the empty map; otherwise the items between `,`. */
  function ParseArgs(ft: FloatText, raw: string): (r: ArgMap)
    ensures raw == "" ==> r == map[]
    ensures forall k <- r :: exists part <- Split(raw, ',') :: Entry(ft, part).Some? && Entry(ft, part).value.0 == k
  {
    if raw == "" then map[]
    else
      var tokens := Split(raw, ',');
      forall k <- Collect(ft, tokens)
        ensures exists part <- tokens :: Entry(ft, part).Some? && Entry(ft, part).value.0 == k
      {
        var j := CollectSource(ft, tokens, k);
        assert tokens[j] in tokens;
      }
      Collect(ft, tokens)
  }

  /** Every key of the map comes from some contribution. */
  lemma {:induction false} FoldSource(es: seq<Contribution>, k: string) returns (j: nat)
    requires k in Fold(es)
    ensures j < |es| && es[j].Some? && es[j].value.0 == k
    decreases |es|
  {
    var n := |es| - 1;
    if es[n].Some? && es[n].value.0 == k {
      j := n;
    } else {
      j := FoldSource(es[..n], k);
    }
  }

  /** A key no contribution carries is absent. */
  lemma {:induction false} FoldAbsent(es: seq<Contribution>, k: string)
    requires forall j :: 0 <= j < |es| ==> es[j].None? || es[j].value.0 != k
    ensures k !in Fold(es)
    decreases |es|
  {
    if es != [] {
      FoldAbsent(es[..|es| - 1], k);
    }
  }

  /** The last contribution carrying a key gives its value. */
  lemma {:induction false} FoldLast(es: seq<Contribution>, j: nat, k: string, v: Value)
    requires j < |es| && es[j] == Some((k, v))
    requires forall j' :: j < j' < |es| ==> es[j'].None? || es[j'].value.0 != k
    ensures k in Fold(es) && Fold(es)[k] == v
    decreases |es|
  {
    var n := |es| - 1;
    if j < n {
      FoldLast(es[..n], j, k, v);
    }
  }

  lemma CollectSource(ft: FloatText, tokens: seq<string>, k: string) returns (j: nat)
    requires k in Collect(ft, tokens)
    ensures j < |tokens| && Entry(ft, tokens[j]).Some? && Entry(ft, tokens[j]).value.0 == k
  {
    j := FoldSource(Entries(ft, tokens), k);
  }

  lemma CollectAbsent(ft: FloatText, tokens: seq<string>, k: string)
    requires forall j :: 0 <= j < |tokens| ==> Entry(ft, tokens[j]).None? || Entry(ft, tokens[j]).value.0 != k
    ensures k !in Collect(ft, tokens)
  {
    FoldAbsent(Entries(ft, tokens), k);
  }

  lemma CollectLast(ft: FloatText, tokens: seq<string>, j: nat, k: string, v: Value)
    requires j < |tokens| && Entry(ft, tokens[j]) == Some((k, v))
    requires forall j' :: j < j' < |tokens| ==> Entry(ft, tokens[j']).None? || Entry(ft, tokens[j']).value.0 != k
    ensures k in Collect(ft, tokens) && Collect(ft, tokens)[k] == v
  {
    FoldLast(Entries(ft, tokens), j, k, v);
  }

  /** One item `key:value` whose key holds no `:`. */
  lemma EntryOf(ft: FloatText, key: string, value: string)
    requires ':' !in key
    ensures Entry(ft, key + ":" + value) ==
              match Classify(ft, value)
              case None => None
              case Some(v) => Some((RewriteKey(key), v))
  {
    var part := key + ":" + value;
    FirstIndexUnique(part, ':', |key|);
    assert part[..|key|] == key && part[|key| + 1..] == value;
  }

  /** A two-item text decodes to the fold of what its two items contribute. */
  lemma ParseTwo(ft: FloatText, x: string, y: string)
    requires ',' !in x && ',' !in y
    ensures ParseArgs(ft, x + "," + y) == Fold([Entry(ft, x), Entry(ft, y)])
  {
    assert x + "," + y == Join([x, y], ',');
    SplitJoin([x, y], ',');
    assert Entries(ft, [x, y]) == [Entry(ft, x), Entry(ft, y)];
  }

  /** Of two contributions for one key, the second wins. */
  lemma FoldTwo(key: string, a: Value, b: Value)
    ensures Fold([Some((key, a)), Some((key, b))]) == map[key := b]
  {
    var es := [Some((key, a)), Some((key, b))];
    assert es[..1] == [Some((key, a))];
    FoldOne(Some((key, a)));
  }

  /** A repeated key keeps the value of its last item. */
  lemma LastValueWins(ft: FloatText, k: string, a: string, b: string)
    requires ',' !in k && ':' !in k && ',' !in a && ',' !in b
    requires Classify(ft, a).Some? && Classify(ft, b).Some?
    ensures var raw := k + ":" + a + "," + k + ":" + b;
            ParseArgs(ft, raw) == map[RewriteKey(k) := Classify(ft, b).value]
  {
    var x, y := k + ":" + a, k + ":" + b;
    assert k + ":" + a + "," + k + ":" + b == x + "," + y;
    ParseTwo(ft, x, y);
    EntryOf(ft, k, a);
    EntryOf(ft, k, b);
    FoldTwo(RewriteKey(k), Classify(ft, a).value, Classify(ft, b).value);
  }

  // ---------------------------------------------------------------------------
  // Encoding

  /** `order` lists every key of `m` exactly once: one possible Go map iteration order. */
  predicate IsOrder(order: seq<string>, m: ArgMap) {
    (forall k <- m :: k in order) && (forall k <- order :: k in m) &&
    forall i, j :: 0 <= i < j < |order| ==> order[i] != order[j]
  }

  /** One `key:value` item as the Ps encoder writes it. */
  function Item(ft: FloatText, verb: Verb, key: string, v: Value): string {
    key + ":" + Render(ft, verb, v)
  }

  function Items(ft: FloatText, verb: Verb, m: ArgMap, order: seq<string>): (r: seq<string>)
    requires forall k <- order :: k in m
    ensures |r| == |order|
    ensures forall i :: 0 <= i < |order| ==> r[i] == Item(ft, verb, order[i], m[order[i]])
  {
    seq(|order|, i requires 0 <= i < |order| => Item(ft, verb, order[i], m[order[i]]))
  }

  /** An iteration order is empty exactly when the map is. */
  lemma OrderEmpty(order: seq<string>, m: ArgMap)
    requires IsOrder(order, m)
    ensures order == [] <==> m == map[]
  {
    if order != [] {
      assert order[0] in m;
    }
    if m != map[] {
      var k :| k in m;
      assert k in order;
    }
  }

  /** The Ps argument text: the items in the given iteration order, joined by `,`. */
  function EncodeArgs(ft: FloatText, verb: Verb, m: ArgMap, order: seq<string>): (r: string)
    requires IsOrder(order, m)
    ensures r == "" <==> m == map[]
  {
    OrderEmpty(order, m);
    if order == [] then ""
    else
      var items := Items(ft, verb, m, order);
      assert Join(items, ',') != "";
      Join(items, ',')
  }

  /** A character other than `,` and `:` that no key or value text holds is absent from the encoding. */
  lemma EncodeArgsFree(ft: FloatText, verb: Verb, m: ArgMap, order: seq<string>, c: char)
    requires IsOrder(order, m) && c != ',' && c != ':'
    requires forall k <- m :: c !in k && c !in Render(ft, verb, m[k])
    ensures c !in EncodeArgs(ft, verb, m, order)
  {
    if order != [] {
      var items := Items(ft, verb, m, order);
      forall t <- items
        ensures c !in t
      {
        var i :| 0 <= i < |items| && items[i] == t;
        assert order[i] in m;
      }
      JoinFree(items, ',', c);
    }
  }

  /**
   * An entry that survives encoding and decoding unchanged: the key has no
   * separator and is not rewritten, and the value text has no `,` and
   * classifies back to the same value.
   */
  predicate Stable(ft: FloatText, verb: Verb, key: string, v: Value) {
    ',' !in key && ':' !in key && RewriteKey(key) == key &&
    ',' !in Render(ft, verb, v) && Classify(ft, Render(ft, verb, v)) == Some(v)
  }

  lemma EntryItem(ft: FloatText, verb: Verb, key: string, v: Value)
    requires Stable(ft, verb, key, v)
    ensures Entry(ft, Item(ft, verb, key, v)) == Some((key, v))
  {
    EntryOf(ft, key, Render(ft, verb, v));
  }

  /** The contributions the items of `m` in `order` make. */
  function Pairs(m: ArgMap, order: seq<string>): (r: seq<Contribution>)
    requires forall k <- order :: k in m
    ensures |r| == |order|
    ensures forall i :: 0 <= i < |order| ==> r[i] == Some((order[i], m[order[i]]))
  {
    seq(|order|, i requires 0 <= i < |order| => Some((order[i], m[order[i]])))
  }

  /** Folding the pairs of distinct keys rebuilds the part of the map they name. */
  lemma {:induction false} FoldPairs(m: ArgMap, order: seq<string>)
    requires forall k <- order :: k in m
    requires forall i, j :: 0 <= i < j < |order| ==> order[i] != order[j]
    ensures Fold(Pairs(m, order)) == map k | k in order :: m[k]
    decreases |order|
  {
    if order != [] {
      var n := |order| - 1;
      var init, last := order[..n], order[n];
      PairsInit(m, order);
      FoldSnoc(Pairs(m, order), last, m[last]);
      FoldPairs(m, init);
      SnocSplit(order);
      MapSnoc(m, init, last);
    }
  }

  /** The pairs of all but the last key, and the last key's pair. */
  lemma PairsInit(m: ArgMap, order: seq<string>)
    requires order != [] && forall k <- order :: k in m
    requires forall i, j :: 0 <= i < j < |order| ==> order[i] != order[j]
    ensures var n := |order| - 1;
            (forall k <- order[..n] :: k in m) &&
            (forall i, j :: 0 <= i < j < n ==> order[..n][i] != order[..n][j]) &&
            Pairs(m, order)[..n] == Pairs(m, order[..n]) && Pairs(m, order)[n] == Some((order[n], m[order[n]]))
  {
  }

  /** Folding ends with the last contribution. */
  lemma FoldSnoc(es: seq<Contribution>, k: string, v: Value)
    requires es != [] && es[|es| - 1] == Some((k, v))
    ensures Fold(es) == Fold(es[..|es| - 1])[k := v]
  {
  }

  /** Adding the last key to the restriction of `m` to the others gives the restriction to all. */
  lemma MapSnoc(m: ArgMap, init: seq<string>, last: string)
    requires last in m && forall k <- init :: k in m
    ensures (map k | k in init :: m[k])[last := m[last]] == map k | k in init + [last] :: m[k]
  {
    var lhs := (map k | k in init :: m[k])[last := m[last]];
    var rhs := map k | k in init + [last] :: m[k];
    assert forall k :: k in init + [last] <==> k in init || k == last;
    assert lhs.Keys == rhs.Keys;
  }

  /** The items of stable entries contribute exactly their pairs. */
  lemma EntriesItems(ft: FloatText, verb: Verb, m: ArgMap, order: seq<string>)
    requires forall k <- order :: k in m && Stable(ft, verb, k, m[k])
    ensures Entries(ft, Items(ft, verb, m, order)) == Pairs(m, order)
  {
    var items := Items(ft, verb, m, order);
    forall i | 0 <= i < |order|
      ensures Entries(ft, items)[i] == Pairs(m, order)[i]
    {
      EntryItem(ft, verb, order[i], m[order[i]]);
    }
  }

  /** The items of distinct keys fold back into the map they came from. */
  lemma CollectItems(ft: FloatText, verb: Verb, m: ArgMap, order: seq<string>)
    requires forall k <- order :: k in m && Stable(ft, verb, k, m[k])
    requires forall i, j :: 0 <= i < j < |order| ==> order[i] != order[j]
    ensures Collect(ft, Items(ft, verb, m, order)) == map k | k in order :: m[k]
  {
    EntriesItems(ft, verb, m, order);
    FoldPairs(m, order);
  }

  /** A non-empty text of `,`-free items decodes to the fold of those items. */
  lemma ParseJoin(ft: FloatText, items: seq<string>)
    requires forall t <- items :: ',' !in t
    requires Join(items, ',') != ""
    ensures ParseArgs(ft, Join(items, ',')) == Collect(ft, items)
  {
    SplitJoin(items, ',');
  }

  /** Stable entries render to items without a `,`. */
  lemma ItemsCommaFree(ft: FloatText, verb: Verb, m: ArgMap, order: seq<string>)
    requires forall k <- order :: k in m && Stable(ft, verb, k, m[k])
    ensures forall t <- Items(ft, verb, m, order) :: ',' !in t
  {
    var items := Items(ft, verb, m, order);
    forall t <- items
      ensures ',' !in t
    {
      var i :| 0 <= i < |items| && items[i] == t;
      assert Stable(ft, verb, order[i], m[order[i]]);
    }
  }

  /** Decoding what the Ps encoder writes gives back the map, in any iteration order. */
  lemma ParseEncode(ft: FloatText, verb: Verb, m: ArgMap, order: seq<string>)
    requires IsOrder(order, m)
    requires forall k <- m :: Stable(ft, verb, k, m[k])
    ensures ParseArgs(ft, EncodeArgs(ft, verb, m, order)) == m
  {
    OrderEmpty(order, m);
    if order != [] {
      ParseItems(ft, verb, m, order);
    }
  }

  lemma ParseItems(ft: FloatText, verb: Verb, m: ArgMap, order: seq<string>)
    requires IsOrder(order, m) && order != []
    requires forall k <- m :: Stable(ft, verb, k, m[k])
    ensures ParseArgs(ft, Join(Items(ft, verb, m, order), ',')) == m
  {
    StableInOrder(ft, verb, m, order);
    ItemsDecode(ft, verb, m, order);
    OrderCoversMap(m, order);
  }

  /** Restricting a map to the keys of an iteration order gives the whole map. */
  lemma OrderCoversMap(m: ArgMap, order: seq<string>)
    requires IsOrder(order, m)
    ensures (map k | k in order :: m[k]) == m
  {
  }

  /** Every key an iteration order lists carries a stable entry. */
  lemma StableInOrder(ft: FloatText, verb: Verb, m: ArgMap, order: seq<string>)
    requires IsOrder(order, m)
    requires forall k <- m :: Stable(ft, verb, k, m[k])
    ensures forall k <- order :: k in m && Stable(ft, verb, k, m[k])
  {
  }

  /** The joined items of stable entries under distinct keys decode to those entries. */
  lemma ItemsDecode(ft: FloatText, verb: Verb, m: ArgMap, order: seq<string>)
    requires order != []
    requires forall k <- order :: k in m && Stable(ft, verb, k, m[k])
    requires forall i, j :: 0 <= i < j < |order| ==> order[i] != order[j]
    ensures ParseArgs(ft, Join(Items(ft, verb, m, order), ',')) == map k | k in order :: m[k]
  {
    var items := Items(ft, verb, m, order);
    assert Join(items, ',') != "";
    ItemsCommaFree(ft, verb, m, order);
    ParseJoin(ft, items);
    CollectItems(ft, verb, m, order);
  }


  /** A one-item text `key:value` decodes to what its item contributes. */
  lemma ParseOne(ft: FloatText, key: string, value: string)
    requires ',' !in key && ':' !in key && ',' !in value
    ensures ParseArgs(ft, key + ":" + value) ==
              match Classify(ft, value)
              case None => map[]
              case Some(v) => map[RewriteKey(key) := v]
  {
    var part := key + ":" + value;
    assert ',' !in part;
    SplitNoDelimiter(part, ',');
    var es := Entries(ft, [part]);
    assert ParseArgs(ft, part) == Fold(es);
    assert es == [Entry(ft, part)];
    FoldOne(Entry(ft, part));
    EntryOf(ft, key, value);
  }

  lemma FoldOne(e: Contribution)
    ensures Fold([e]) == if e.None? then map[] else map[e.value.0 := e.value.1]
  {
    assert [e][..0] == [];
  }

  /**
   * A string made of digits is written back verbatim and re-read as an int:
   * the Ps encoder does not preserve value types.
   */
  lemma DigitStringRetyped(ft: FloatText, verb: Verb, key: string, digits: string)
    requires ',' !in key && ':' !in key && RewriteKey(key) == key
    requires IsDigitRun(digits) && ValueOf(digits, 10) < TwoTo63
    ensures ParseArgs(ft, EncodeArgs(ft, verb, map[key := StrV(digits)], [key])) == map[key := IntV(ValueOf(digits, 10))]
  {
    var m := map[key := StrV(digits)];
    assert ',' !in digits by {
      assert forall i :: 0 <= i < |digits| ==> InBase(digits[i], 10);
    }
    assert EncodeArgs(ft, verb, m, [key]) == key + ":" + digits by {
      OrderEmpty([key], m);
      assert Items(ft, verb, m, [key]) == [key + ":" + digits];
    }
    ParseOne(ft, key, digits);
  }

  /** A value that starts with a sign is not a digit run: `-61` stays a string. */
  lemma SignedStaysString(ft: FloatText, value: string)
    requires |value| >= 1 && (value[0] == '-' || value[0] == '+')
    ensures Classify(ft, value) == Some(StrV(value))
  {
    assert !InBase(value[0], 10);
    assert !IsDigitRun(value);
    var i := FirstIndex(value, '.');
    if 0 < i < |value| - 1 {
      assert !InBase(value[..i][0], 10);
    }
    assert !IsDecimalFraction(value);
    assert value != "true" && value != "false" by {
      assert "true"[0] == 't' && "false"[0] == 'f';
    }
  }

  /** A value with a second dot after the fraction is not a decimal: `12.34.5` stays a string. */
  lemma TwoDotsStaysString(ft: FloatText, a: string, b: string, c: string)
    requires IsDigitRun(a) && IsDigitRun(b) && IsDigitRun(c)
    ensures Classify(ft, a + "." + b + "." + c) == Some(StrV(a + "." + b + "." + c))
  {
    var value := a + "." + b + "." + c;
    assert forall i :: 0 <= i < |a| ==> InBase(a[i], 10);
    assert value[|a|] == '.' && !InBase('.', 10);
    assert !IsDigitRun(value);
    FirstIndexUnique(value, '.', |a|);
    assert value[|a| + 1..][|b|] == '.';
    assert !IsDigitRun(value[|a| + 1..]);
    assert value != "true" && value != "false" by {
      assert InBase(value[0], 10);
    }
  }

  /** The empty value and capitalised booleans stay strings. */
  lemma EmptyAndCapitalStayStrings(ft: FloatText)
    ensures Classify(ft, "") == Some(StrV(""))
    ensures Classify(ft, "True") == Some(StrV("True"))
  {
    assert !IsDigitRun("True") by { assert !InBase("True"[0], 10); }
    assert FirstIndex("True", '.') == 4;
  }

  /** A digit run too large for `Atoi` drops its entry instead of falling back to a string. */
  lemma OverflowDropped(ft: FloatText, key: string, digits: string)
    requires ',' !in key && ':' !in key
    requires IsDigitRun(digits) && ValueOf(digits, 10) >= TwoTo63
    ensures ParseArgs(ft, key + ":" + digits) == map[]
  {
    assert ',' !in digits by {
      assert forall i :: 0 <= i < |digits| ==> InBase(digits[i], 10);
    }
    ParseOne(ft, key, digits);
  }

  /** A decimal `ParseFloat` rejects drops its entry, as an oversized digit run does. */
  lemma FloatOverflowDropped(ft: FloatText, key: string, value: string)
    requires ',' !in key && ':' !in key
    requires IsDecimalFraction(value) && Parse(ft, value).None?
    ensures ParseArgs(ft, key + ":" + value) == map[]
  {
    DecimalFree(value);
    ParseOne(ft, key, value);
  }

  /** A decimal holds no `,` and, for its dot, is no digit run. */
  lemma DecimalFree(value: string)
    requires IsDecimalFraction(value)
    ensures ',' !in value && !IsDigitRun(value)
  {
    var i := FirstIndex(value, '.');
    assert forall j :: 0 <= j < i ==> value[j] == value[..i][j] && InBase(value[..i][j], 10);
    assert forall j :: i < j < |value| ==> value[j] == value[i + 1..][j - i - 1] && InBase(value[i + 1..][j - i - 1], 10);
    assert !InBase(value[i], 10);
  }

  /**
   * A float comes back from the Ps and Pd encoders as `ParseFloat` reads its
   * `%f` text, which need not be the float written: `%f` keeps six decimals.
   */
  lemma FloatReparsed(ft: FloatText, key: string, x: Float)
    requires ',' !in key && ':' !in key && RewriteKey(key) == key
    requires IsDecimalFraction(Format(ft, x)) && Parse(ft, Format(ft, x)).Some?
    ensures ParseArgs(ft, EncodeArgs(ft, PercentF, map[key := FloatV(x)], [key])) ==
            map[key := FloatV(Parse(ft, Format(ft, x)).value)]
  {
    var m, text := map[key := FloatV(x)], Format(ft, x);
    DecimalFree(text);
    assert EncodeArgs(ft, PercentF, m, [key]) == key + ":" + text by {
      OrderEmpty([key], m);
      assert Items(ft, PercentF, m, [key]) == [key + ":" + text];
    }
    ParseOne(ft, key, text);
  }

  /**
   * A float whose `%v` text is all digits (`3` for 3.0) is re-read as an
   * int: the Ac encoder does not preserve value types either.
   */
  lemma IntegralFloatRetyped(ft: FloatText, key: string, x: Float)
    requires ',' !in key && ':' !in key && RewriteKey(key) == key
    requires IsDigitRun(General(ft, x)) && ValueOf(General(ft, x), 10) < TwoTo63
    ensures ParseArgs(ft, EncodeArgs(ft, PercentV, map[key := FloatV(x)], [key])) ==
            map[key := IntV(ValueOf(General(ft, x), 10))]
  {
    var m, digits := map[key := FloatV(x)], General(ft, x);
    assert ',' !in digits by {
      assert forall i :: 0 <= i < |digits| ==> InBase(digits[i], 10);
    }
    assert EncodeArgs(ft, PercentV, m, [key]) == key + ":" + digits by {
      OrderEmpty([key], m);
      assert Items(ft, PercentV, m, [key]) == [key + ":" + digits];
    }
    ParseOne(ft, key, digits);
  }
}
