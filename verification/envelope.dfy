/**
 * The frame every Go packet codec shares: a two-letter tag pair around a body,
 * and a checksum trailer of hex digits at the end of the body.
 *
 * Two decoding shapes occur. The "sealed" shape (Pb, Pc, Pd, Pi, Pm, Ps, Ab,
 * Ac) takes the last four characters of the body as the checksum over
 * everything before them, then drops one `;` and splits on `;`. The "trailer"
 * shape (Pa, Pr, Ao, Ar, As, Au) splits the whole body on `;` and reads the
 * last token as the checksum. Both encoders append four uppercase hex digits
 * of the checksum of the text before them.
 */
module Envelope {
  import opened Results
  import opened Strings
  import opened Numbers
  import opened Checksum

  /** A packet type name such as `Pa`. */
  type Tag = t: string | |t| == 2 witness "Pa"

  function OpenTag(tag: Tag): string { "<" + tag + ">" }

  function CloseTag(tag: Tag): string { "</" + tag + ">" }

  /** `strings.HasPrefix(raw, "<Tg>") && strings.HasSuffix(raw, "</Tg>")`. */
  predicate Wrapped(raw: string, tag: Tag) {
    StartsWith(raw, OpenTag(tag)) && EndsWith(raw, CloseTag(tag))
  }

  function Wrap(tag: Tag, body: string): (r: string)
    ensures |r| == |body| + 9
  {
    OpenTag(tag) + body + CloseTag(tag)
  }

  /** The characters a wrapped text must hold at both ends. */
  lemma TagChars(raw: string, tag: Tag)
    requires Wrapped(raw, tag)
    ensures |raw| >= 5
    ensures raw[1] == tag[0] && raw[2] == tag[1] && raw[3] == '>'
    ensures raw[|raw| - 5] == '<' && raw[|raw| - 4] == '/'
    ensures raw[|raw| - 3] == tag[0] && raw[|raw| - 2] == tag[1]
  {
    assert raw[..4] == OpenTag(tag);
    assert raw[|raw| - 5..] == CloseTag(tag);
  }

  /** The opening and the closing tag cannot share characters, so a wrapped text is at least 9 long. */
  lemma TagsApart(raw: string, tag: Tag)
    requires Wrapped(raw, tag)
    ensures |raw| >= 9
  {
    TagChars(raw, tag);
    if |raw| < 9 {
      assert false;
    }
  }

  /** `TrimPrefix` then `TrimSuffix` of the tags, after the `HasPrefix`/`HasSuffix` guard. */
  function Unwrap(raw: string, tag: Tag): (r: Result<string, GoError>)
    ensures r.Ok? <==> Wrapped(raw, tag)
    ensures r.Ok? ==> raw == Wrap(tag, r.value)
    ensures r.Err? ==> r.error == BadEnvelope(tag)
  {
    if Wrapped(raw, tag) then
      TagsApart(raw, tag);
      var body := raw[4..|raw| - 5];
      assert raw == raw[..4] + body + raw[|raw| - 5..];
      Ok(body)
    else Err(BadEnvelope(tag))
  }

  lemma UnwrapWrap(tag: Tag, body: string)
    ensures Unwrap(Wrap(tag, body), tag) == Ok(body)
  {
    var raw := Wrap(tag, body);
    assert raw[..4] == OpenTag(tag);
    assert raw[|raw| - 5..] == CloseTag(tag);
    assert raw[4..|raw| - 5] == body;
  }

  // ---------------------------------------------------------------------------
  // The four-character checksum suffix

  /** `text` followed by `%04X` of its checksum. */
  function Seal(tab: Table, text: string): (r: string)
    ensures |r| == |text| + 4 && r[..|text|] == text
    ensures AllUpperHex(r[|text|..]) && AllDigits(r[|text|..], 16)
    ensures ValueOf(r[|text|..], 16) == TextCrc(tab, text)
  {
    var r := text + Hex4(TextCrc(tab, text));
    assert r[|text|..] == Hex4(TextCrc(tab, text));
    r
  }

  /**
   * The body ends in `;` and four uppercase hex digits, as every encoder
   * writes it; decoders also accept lowercase digits and, in the trailer
   * shape, fewer or more of them.
   */
  predicate Canonical(raw: string) {
    |raw| >= 14 && raw[|raw| - 10] == ';' &&
    AllUpperHex(raw[|raw| - 9..|raw| - 5]) && AllDigits(raw[|raw| - 9..|raw| - 5], 16)
  }

  /** The last four characters, when they are hex digits. */
  predicate HasHexSuffix(body: string) {
    |body| >= 4 && AllDigits(body[|body| - 4..], 16)
  }

  /**
   * `rawCrc := body[len(body)-4:]`, `ParseUint(rawCrc, 16, 16)` and the
   * comparison with the checksum of the rest. Go slices bytes: fewer than
   * four bytes is a slice-bounds panic, and the four bytes parse exactly when
   * they are the last four characters and those are hex digits (see
   * `SuffixBytes`).
   */
  function Unseal(tab: Table, body: string): (r: Result<string, GoError>)
    ensures |Utf8(body)| < 4 ==> r.Err? && r.error.Panic?
    ensures |Utf8(body)| >= 4 && !HasHexSuffix(body) ==> r == Err(BadCrcToken)
    ensures r.Ok? <==> HasHexSuffix(body) && TextCrc(tab, body[..|body| - 4]) == ValueOf(body[|body| - 4..], 16)
    ensures r.Ok? ==> r.value == body[..|body| - 4]
    ensures HasHexSuffix(body) && TextCrc(tab, body[..|body| - 4]) != ValueOf(body[|body| - 4..], 16) ==>
              r == Err(CrcMismatch(ValueOf(body[|body| - 4..], 16), TextCrc(tab, body[..|body| - 4])))
  {
    if |Utf8(body)| < 4 then Err(Panic("slice bounds out of range"))
    else if HasHexSuffix(body) then
      var payload := body[..|body| - 4];
      var received := ValueOf(body[|body| - 4..], 16);
      var calculated := TextCrc(tab, payload);
      if calculated == received then Ok(payload) else Err(CrcMismatch(received, calculated))
    else Err(BadCrcToken)
  }

  /** The four bytes Go slices off are hex digits exactly when the last four characters are. */
  lemma SuffixBytes(body: string)
    requires |Utf8(body)| >= 4
    ensures HasHexSuffix(body) ==>
              Utf8(body) == Utf8(body[..|body| - 4]) + Utf8(body[|body| - 4..]) &&
              |Utf8(body[|body| - 4..])| == 4
    ensures (forall i :: |Utf8(body)| - 4 <= i < |Utf8(body)| ==> IsHex(Utf8(body)[i] as char)) ==> HasHexSuffix(body)
  {
    if HasHexSuffix(body) {
      HexSuffixBytes(body);
    }
    if forall i :: |Utf8(body)| - 4 <= i < |Utf8(body)| ==> IsHex(Utf8(body)[i] as char) {
      HexBytesSuffix(body);
    }
  }

  /** Four hex digits at the end of the text are its last four bytes. */
  lemma HexSuffixBytes(body: string)
    requires HasHexSuffix(body)
    ensures Utf8(body) == Utf8(body[..|body| - 4]) + Utf8(body[|body| - 4..])
    ensures |Utf8(body[|body| - 4..])| == 4
  {
    var tok := body[|body| - 4..];
    SplitAtIndex(body, |body| - 4);
    Utf8Append(body[..|body| - 4], tok);
    assert forall i :: 0 <= i < |tok| ==> InBase(tok[i], 16);
    Utf8Ascii(tok);
  }

  /** Four hex-digit bytes at the end of the encoding are the text's last four characters. */
  lemma HexBytesSuffix(body: string)
    requires |Utf8(body)| >= 4
    requires forall i :: |Utf8(body)| - 4 <= i < |Utf8(body)| ==> IsHex(Utf8(body)[i] as char)
    ensures HasHexSuffix(body)
  {
    HexTailAscii(Utf8(body));
    Utf8AsciiTail(body, 4);
    var tok := body[|body| - 4..];
    TokenAscii(body);
    assert forall i :: 0 <= i < |tok| ==> tok[i] as int < 0x80 by { assert AllAscii(tok); }
    Utf8Ascii(tok);
    TokenHex(body);
  }

  predicate AllAscii(s: string) {
    forall i :: 0 <= i < |s| ==> s[i] as int < 0x80
  }

  /** The last four characters are ASCII when they take four bytes. */
  lemma TokenAscii(body: string)
    requires 4 <= |body| && |Utf8(body[|body| - 4..])| == 4
    ensures AllAscii(body[|body| - 4..])
  {
    var tok := body[|body| - 4..];
    forall j | 0 <= j < |tok|
      ensures tok[j] as int < 0x80
    {
      TokenCharAscii(body, j);
    }
  }

  /** ASCII last characters spell the hex-digit bytes that end the encoding. */
  lemma TokenHex(body: string)
    requires 4 <= |body| && |Utf8(body)| >= 4
    requires forall i :: |Utf8(body)| - 4 <= i < |Utf8(body)| ==> IsHex(Utf8(body)[i] as char)
    requires Utf8(body[..|body| - 4]) + Utf8(body[|body| - 4..]) == Utf8(body)
    requires var tok := body[|body| - 4..];
             |Utf8(tok)| == 4 && forall i :: 0 <= i < |tok| ==> Utf8(tok)[i] == tok[i] as int
    ensures HasHexSuffix(body)
  {
    var tok := body[|body| - 4..];
    var front := body[..|body| - 4];
    forall j | 0 <= j < 4
      ensures IsHex(tok[j])
    {
      AppendIndex(Utf8(front), Utf8(tok), j);
    }
  }

  /** Hex-digit bytes are ASCII. */
  lemma HexTailAscii(bytes: seq<Byte>)
    requires |bytes| >= 4
    requires forall i :: |bytes| - 4 <= i < |bytes| ==> IsHex(bytes[i] as char)
    ensures AsciiTail(bytes, 4)
  {
    forall i | |bytes| - 4 <= i < |bytes|
      ensures bytes[i] < 0x80
    {
      assert IsHex(bytes[i] as char);
    }
  }

  /** A character among the last four is ASCII when the last four bytes are. */
  lemma TokenCharAscii(body: string, j: nat)
    requires j < 4 <= |body|
    requires |Utf8(body[|body| - 4..])| == 4
    ensures body[|body| - 4..][j] as int < 0x80
  {
    var tok := body[|body| - 4..];
    if tok[j] as int >= 0x80 {
      Utf8LongChar(tok, j);
      assert false;
    }
  }

  /** A text with a non-ASCII character has more bytes than characters. */
  lemma {:induction false} Utf8LongChar(s: string, j: nat)
    requires j < |s| && s[j] as int >= 0x80
    ensures |Utf8(s)| > |s|
  {
    if j == 0 {
      assert Utf8(s) == EncodeChar(s[0]) + Utf8(s[1..]);
    } else {
      Utf8LongChar(s[1..], j - 1);
      assert Utf8(s) == EncodeChar(s[0]) + Utf8(s[1..]);
    }
  }

  lemma UnsealSeal(tab: Table, text: string)
    ensures Unseal(tab, Seal(tab, text)) == Ok(text)
  {
    var body := Seal(tab, text);
    assert body[|body| - 4..] == body[|text|..];
  }

  /** A sealed body whose checksum digits are uppercase is re-sealed to itself. */
  lemma SealUnseal(tab: Table, body: string)
    requires Unseal(tab, body).Ok?
    requires AllUpperHex(body[|body| - 4..])
    ensures Seal(tab, Unseal(tab, body).value) == body
  {
    var text := body[..|body| - 4];
    Hex4OfValue(body[|body| - 4..]);
    assert body == text + body[|body| - 4..];
  }

  // ---------------------------------------------------------------------------
  // The sealed shape

  /**
   * Tags, checksum over the body less its last four characters, one trailing
   * `;` removed, then `strings.Split` on `;`.
   */
  function Open(tab: Table, raw: string, tag: Tag): (r: Result<seq<string>, GoError>)
    ensures r.Ok? ==> Wrapped(raw, tag) && |r.value| >= 1
    ensures !Wrapped(raw, tag) ==> r == Err(BadEnvelope(tag))
    ensures r.Ok? ==> forall t <- r.value :: ';' !in t
  {
    var body :- Unwrap(raw, tag);
    var text :- Unseal(tab, body);
    Ok(SealedFields(text))
  }

  /**
   * `raw` is `<Tg>` + `text` + four hex digits + `</Tg>`, and the digits are
   * the checksum of `text`: the frames the sealed shape accepts.
   */
  predicate Sealed(tab: Table, raw: string, tag: Tag, text: string) {
    Wrapped(raw, tag) && |raw| == |text| + 13 && raw[4..|raw| - 9] == text &&
    AllDigits(raw[|raw| - 9..|raw| - 5], 16) && ValueOf(raw[|raw| - 9..|raw| - 5], 16) == TextCrc(tab, text)
  }

  /** The text a frame's checksum covers: all of the body but its last four characters. */
  function Payload(raw: string): string {
    if |raw| >= 13 then raw[4..|raw| - 9] else ""
  }

  /** The body of a wrapped frame, cut at the checksum. */
  lemma BodySlices(raw: string)
    requires |raw| >= 13
    ensures raw[4..|raw| - 5][..|raw| - 13] == raw[4..|raw| - 9]
    ensures raw[4..|raw| - 5][|raw| - 13..] == raw[|raw| - 9..|raw| - 5]
  {
  }

  /**
   * The sealed shape accepts exactly the sealed frames, and yields the text
   * before the checksum, less one final `;`, split on `;`. A wrapped frame it
   * rejects fails on the checksum (a panic for a body under four bytes, an
   * unparsable token, a mismatch), never on a field.
   */
  lemma OpenSealed(tab: Table, raw: string, tag: Tag)
    ensures Open(tab, raw, tag).Ok? <==> Sealed(tab, raw, tag, Payload(raw))
    ensures Open(tab, raw, tag).Ok? ==> Open(tab, raw, tag).value == SealedFields(Payload(raw))
    ensures Wrapped(raw, tag) && Open(tab, raw, tag).Err? ==>
              var e := Open(tab, raw, tag).error; e.Panic? || e == BadCrcToken || e.CrcMismatch?
  {
    if Wrapped(raw, tag) {
      TagsApart(raw, tag);
      OpenBody(tab, raw, tag);
      if |raw| >= 13 {
        OpenLong(tab, raw, tag);
      } else {
        OpenShort(tab, raw, tag);
      }
    }
  }

  lemma OpenLong(tab: Table, raw: string, tag: Tag)
    requires Wrapped(raw, tag) && |raw| >= 13
    requires Open(tab, raw, tag) ==
               match Unseal(tab, raw[4..|raw| - 5])
               case Ok(text) => Ok(SealedFields(text))
               case Err(e) => Err(e)
    ensures Open(tab, raw, tag).Ok? <==> Sealed(tab, raw, tag, Payload(raw))
    ensures Open(tab, raw, tag).Ok? ==> Open(tab, raw, tag).value == SealedFields(Payload(raw))
    ensures Open(tab, raw, tag).Err? ==>
              var e := Open(tab, raw, tag).error; e.Panic? || e == BadCrcToken || e.CrcMismatch?
  {
    BodySlices(raw);
  }

  /** A wrapped frame too short for a checksum fails on it. */
  lemma OpenShort(tab: Table, raw: string, tag: Tag)
    requires Wrapped(raw, tag) && 9 <= |raw| < 13
    requires Open(tab, raw, tag) ==
               match Unseal(tab, raw[4..|raw| - 5])
               case Ok(text) => Ok(SealedFields(text))
               case Err(e) => Err(e)
    ensures !Sealed(tab, raw, tag, Payload(raw))
    ensures Open(tab, raw, tag).Err? && (Open(tab, raw, tag).error.Panic? || Open(tab, raw, tag).error == BadCrcToken)
  {
    assert !HasHexSuffix(raw[4..|raw| - 5]);
  }


  /** A wrapped frame is opened by unsealing its body. */
  lemma OpenBody(tab: Table, raw: string, tag: Tag)
    requires Wrapped(raw, tag) && |raw| >= 9
    ensures Open(tab, raw, tag) ==
              match Unseal(tab, raw[4..|raw| - 5])
              case Ok(text) => Ok(SealedFields(text))
              case Err(e) => Err(e)
  {
    assert Unwrap(raw, tag) == Ok(raw[4..|raw| - 5]);
  }

  /** What `Close` writes is sealed over its fields, each followed by `;`, and in canonical form. */
  lemma CloseSealed(tab: Table, tag: Tag, fields: seq<string>)
    ensures Payload(Close(tab, tag, fields)) == Join(fields, ';') + ";"
    ensures Sealed(tab, Close(tab, tag, fields), tag, Join(fields, ';') + ";")
  {
    var text := Join(fields, ';') + ";";
    var sealed := Seal(tab, text);
    assert sealed == text + sealed[|text|..];
    WrapSlices(tag, text, sealed[|text|..]);
  }

  /** The fields of a sealed text: one final `;` dropped, then split. */
  function SealedFields(text: string): (r: seq<string>)
    ensures |r| >= 1 && forall t <- r :: ';' !in t
    ensures Join(r, ';') + ";" == text || (Join(r, ';') == text && !EndsWith(text, ";"))
  {
    var trimmed := TrimSuffix(text, ";");
    JoinSplit(trimmed, ';');
    Split(trimmed, ';')
  }

  /** The sealed shape's encoder: fields each followed by `;`, then the checksum. */
  function Close(tab: Table, tag: Tag, fields: seq<string>): string {
    Wrap(tag, Seal(tab, Join(fields, ';') + ";"))
  }

  /** A closed frame's body starts with its first field. */
  lemma CloseStart(tab: Table, tag: Tag, field: string)
    requires field != []
    ensures Close(tab, tag, [field])[4] == field[0]
  {
    var sealed := Seal(tab, Join([field], ';') + ";");
    assert Join([field], ';') == field;
    assert sealed[0] == field[0];
    assert Close(tab, tag, [field]) == OpenTag(tag) + sealed + CloseTag(tag);
  }

  /** Two field lists that join to the same text close to the same frame. */
  lemma CloseSameJoin(tab: Table, tag: Tag, xs: seq<string>, ys: seq<string>)
    requires Join(xs, ';') == Join(ys, ';')
    ensures Close(tab, tag, xs) == Close(tab, tag, ys)
  {
  }

  /** Opening a closed frame gives back its fields, whatever the table. */
  lemma OpenClose(tab: Table, tag: Tag, fields: seq<string>)
    requires |fields| >= 1 && forall t <- fields :: ';' !in t
    ensures Open(tab, Close(tab, tag, fields), tag) == Ok(fields)
  {
    var text := Join(fields, ';') + ";";
    UnwrapWrap(tag, Seal(tab, text));
    UnsealSeal(tab, text);
    assert TrimSuffix(text, ";") == Join(fields, ';');
    SplitJoin(fields, ';');
  }

  /**
   * A frame that opens, whose checksum digits are uppercase and whose body
   * ended in `;`, is what `Close` makes of its fields.
   */
  lemma CloseOpen(tab: Table, raw: string, tag: Tag)
    requires Open(tab, raw, tag).Ok? && Canonical(raw)
    ensures Close(tab, tag, Open(tab, raw, tag).value) == raw
  {
    OpenSealed(tab, raw, tag);
    CanonicalSeal(tab, raw, tag);
  }

  /** The text of a canonical frame that opens ends in `;`, and sealing it rebuilds the body. */
  lemma CanonicalSeal(tab: Table, raw: string, tag: Tag)
    requires Open(tab, raw, tag).Ok? && Canonical(raw)
    ensures EndsWith(raw[4..|raw| - 9], ";")
    ensures Wrap(tag, Seal(tab, raw[4..|raw| - 9])) == raw
  {
    var body := Unwrap(raw, tag).value;
    BodySlices(raw);
    SealUnseal(tab, body);
    CanonicalText(raw);
  }

  /** The text of a canonical frame ends in `;`. */
  lemma CanonicalText(raw: string)
    requires Canonical(raw)
    ensures EndsWith(raw[4..|raw| - 9], ";")
  {
    var text := raw[4..|raw| - 9];
    assert text[|text| - 1] == raw[|raw| - 10];
  }

  // ---------------------------------------------------------------------------
  // The trailer shape

  /** Tags, then `strings.Split` on `;`, which must give exactly `count` tokens. */
  function SplitBody(raw: string, tag: Tag, count: nat): (r: Result<seq<string>, GoError>)
    ensures r.Ok? ==> Wrapped(raw, tag) && |r.value| == count
    ensures r.Ok? ==> raw == Wrap(tag, Join(r.value, ';'))
    ensures r.Ok? ==> forall t <- r.value :: ';' !in t
    ensures !Wrapped(raw, tag) ==> r == Err(BadEnvelope(tag))
    ensures Wrapped(raw, tag) && |Split(Unwrap(raw, tag).value, ';')| != count ==> r == Err(BadPartCount(count))
  {
    var body :- Unwrap(raw, tag);
    var parts := Split(body, ';');
    if |parts| != count then Err(BadPartCount(count))
    else
      JoinSplit(body, ';');
      Ok(parts)
  }

  /** `ParseUint(token, 16, 16)`, then comparison with the checksum of `covered`. */
  function CheckTrailer(tab: Table, token: string, covered: string): (r: Result<(), GoError>)
    ensures r.Ok? <==> ParseUint(token, 16, 16) == Some(TextCrc(tab, covered))
    ensures ParseUint(token, 16, 16).None? ==> r == Err(BadCrcToken)
  {
    match ParseUint(token, 16, 16)
    case None => Err(BadCrcToken)
    case Some(received) =>
      var calculated := TextCrc(tab, covered);
      if calculated == received then Ok(()) else Err(CrcMismatch(received, calculated))
  }

  /** The encoder's trailer passes the decoder's check. */
  lemma CheckSealed(tab: Table, covered: string)
    ensures CheckTrailer(tab, Hex4(TextCrc(tab, covered)), covered) == Ok(())
  {
    ParseUintHex4(TextCrc(tab, covered));
  }

  /** An accepted four-digit uppercase trailer is the one the encoder writes. */
  lemma TrailerIsSealed(tab: Table, token: string, covered: string)
    requires CheckTrailer(tab, token, covered).Ok?
    requires |token| == 4 && AllUpperHex(token)
    ensures token == Hex4(TextCrc(tab, covered))
  {
    Hex4OfValue(token);
  }

  /** Splitting `a;b;...;tok` when the pieces are free of `;`. */
  lemma SplitFields(fields: seq<string>, token: string)
    requires |fields| >= 1 && forall t <- fields :: ';' !in t
    requires ';' !in token
    ensures Split(Join(fields, ';') + ";" + token, ';') == fields + [token]
  {
    assert Join(fields, ';') + ";" + token == Join(fields + [token], ';') by {
      JoinAppend(fields, [token], ';');
    }
    SplitJoin(fields + [token], ';');
  }

  /**
   * The trailer shape, stated without `Split`: the body is `covered`, whose
   * checksum the remaining token spells in hex with no `;`.
   */
  predicate Trailed(tab: Table, raw: string, tag: Tag, covered: string) {
    Wrapped(raw, tag) && |raw| >= |covered| + 9 && raw[4..4 + |covered|] == covered &&
    var token := raw[4 + |covered|..|raw| - 5];
    ';' !in token && ParseUint(token, 16, 16) == Some(TextCrc(tab, covered))
  }

  lemma JoinLastField(parts: seq<string>, n: nat)
    requires 1 <= n && |parts| == n + 1
    ensures Join(parts, ';') == Join(parts[..n], ';') + ";" + parts[n]
  {
    assert parts == parts[..n] + [parts[n]];
    JoinAppend(parts[..n], [parts[n]], ';');
  }

  /** Where the pieces of a wrapped concatenation sit. */
  lemma WrapSlices(tag: Tag, a: string, b: string)
    ensures var raw := Wrap(tag, a + b);
            Wrapped(raw, tag) && raw[4..4 + |a|] == a && raw[4 + |a|..|raw| - 5] == b
  {
    var raw := Wrap(tag, a + b);
    assert raw[..4] == OpenTag(tag);
    assert raw[|raw| - 5..] == CloseTag(tag);
  }

  lemma SliceSplit(s: string, i: nat, j: nat, k: nat)
    requires i <= j <= k <= |s|
    ensures s[i..k] == s[i..j] + s[j..k]
  {}

  lemma TrailedWrap(tab: Table, tag: Tag, covered: string, token: string)
    requires ';' !in token && ParseUint(token, 16, 16) == Some(TextCrc(tab, covered))
    ensures Trailed(tab, Wrap(tag, covered + token), tag, covered)
  {
    WrapSlices(tag, covered, token);
  }

  /**
   * The trailer-shape decoder: `n` fields and a checksum token, the checksum
   * taken over the fields each followed by `;`.
   */
  function OpenTrailer(tab: Table, raw: string, tag: Tag, n: nat): (r: Result<seq<string>, GoError>)
    requires n >= 1
    ensures r.Ok? ==> |r.value| == n && forall t <- r.value :: ';' !in t
    ensures r.Ok? ==> Trailed(tab, raw, tag, Join(r.value, ';') + ";")
    ensures !Wrapped(raw, tag) ==> r == Err(BadEnvelope(tag))
  {
    var parts :- SplitBody(raw, tag, n + 1);
    var _ :- CheckTrailer(tab, parts[n], Join(parts[..n], ';') + ";");
    JoinLastField(parts, n);
    TrailedWrap(tab, tag, Join(parts[..n], ';') + ";", parts[n]);
    Ok(parts[..n])
  }

  /** Every trailed frame decodes, to its fields: `OpenTrailer` accepts exactly the trailed frames. */
  lemma OpenTrailerComplete(tab: Table, raw: string, tag: Tag, fields: seq<string>)
    requires |fields| >= 1 && forall t <- fields :: ';' !in t
    requires Trailed(tab, raw, tag, Join(fields, ';') + ";")
    ensures OpenTrailer(tab, raw, tag, |fields|) == Ok(fields)
  {
    var covered := Join(fields, ';') + ";";
    var token := raw[4 + |covered|..|raw| - 5];
    TrailedParts(tab, raw, tag, fields);
    TrailedToken(tab, raw, tag, covered);
    SplitBodyFrom(raw, tag, fields + [token]);
    LastOfSnoc(fields, token);
    OpenTrailerFrom(tab, raw, tag, |fields|, fields + [token]);
  }

  /** The token of a trailed frame passes the checksum test. */
  lemma TrailedToken(tab: Table, raw: string, tag: Tag, covered: string)
    requires Trailed(tab, raw, tag, covered)
    ensures CheckTrailer(tab, raw[4 + |covered|..|raw| - 5], covered) == Ok(())
  {
  }

  /** The body of a trailed frame splits into the fields and the checksum token. */
  lemma TrailedParts(tab: Table, raw: string, tag: Tag, fields: seq<string>)
    requires |fields| >= 1 && forall t <- fields :: ';' !in t
    requires Trailed(tab, raw, tag, Join(fields, ';') + ";")
    ensures var token := raw[4 + |Join(fields, ';') + ";"|..|raw| - 5];
            |raw| >= 9 && Split(raw[4..|raw| - 5], ';') == fields + [token]
  {
    var covered := Join(fields, ';') + ";";
    var token := raw[4 + |covered|..|raw| - 5];
    SliceSplit(raw, 4, 4 + |covered|, |raw| - 5);
    SplitFields(fields, token);
  }

  /** A wrapped frame whose body splits into `parts` gives `parts`. */
  lemma SplitBodyFrom(raw: string, tag: Tag, parts: seq<string>)
    requires Wrapped(raw, tag) && |raw| >= 9 && Split(raw[4..|raw| - 5], ';') == parts
    ensures SplitBody(raw, tag, |parts|) == Ok(parts)
  {
    assert Unwrap(raw, tag) == Ok(raw[4..|raw| - 5]);
  }

  /** Split parts whose last one is the checksum of the others give the others. */
  lemma OpenTrailerFrom(tab: Table, raw: string, tag: Tag, n: nat, parts: seq<string>)
    requires n >= 1 && SplitBody(raw, tag, n + 1) == Ok(parts)
    requires CheckTrailer(tab, parts[n], Join(parts[..n], ';') + ";") == Ok(())
    ensures OpenTrailer(tab, raw, tag, n) == Ok(parts[..n])
  {
  }

  /** The front and the last element of `xs + [x]`. */
  lemma LastOfSnoc<T>(xs: seq<T>, x: T)
    ensures (xs + [x])[..|xs|] == xs && (xs + [x])[|xs|] == x && |xs + [x]| == |xs| + 1
  {
  }

  lemma TrailedClose(tab: Table, tag: Tag, fields: seq<string>)
    ensures Trailed(tab, Close(tab, tag, fields), tag, Join(fields, ';') + ";")
  {
    var covered := Join(fields, ';') + ";";
    var token := Hex4(TextCrc(tab, covered));
    assert Seal(tab, covered) == covered + token;
    assert ';' !in token by {
      assert forall i :: 0 <= i < |token| ==> IsUpperHex(token[i]);
    }
    ParseUintHex4(TextCrc(tab, covered));
    TrailedWrap(tab, tag, covered, token);
  }

  /** The trailer-shape decoder reads back what the shared encoder writes. */
  lemma OpenTrailerClose(tab: Table, tag: Tag, fields: seq<string>)
    requires |fields| >= 1 && forall t <- fields :: ';' !in t
    ensures OpenTrailer(tab, Close(tab, tag, fields), tag, |fields|) == Ok(fields)
  {
    TrailedClose(tab, tag, fields);
    OpenTrailerComplete(tab, Close(tab, tag, fields), tag, fields);
  }

  /** The shared encoder writes canonical frames. */
  lemma CanonicalClose(tab: Table, tag: Tag, fields: seq<string>)
    ensures Canonical(Close(tab, tag, fields))
  {
    var covered := Join(fields, ';') + ";";
    var token := Hex4(TextCrc(tab, covered));
    var raw := Close(tab, tag, fields);
    assert Seal(tab, covered) == covered + token;
    assert raw == OpenTag(tag) + covered + token + CloseTag(tag);
    assert raw[|raw| - 10] == covered[|covered| - 1];
    assert raw[|raw| - 9..|raw| - 5] == token;
  }

  /** A canonical trailed frame is what the encoder writes for its fields. */
  lemma CloseOpenTrailer(tab: Table, raw: string, tag: Tag, n: nat)
    requires n >= 1 && OpenTrailer(tab, raw, tag, n).Ok? && Canonical(raw)
    ensures Close(tab, tag, OpenTrailer(tab, raw, tag, n).value) == raw
  {
    var fields := OpenTrailer(tab, raw, tag, n).value;
    var covered := Join(fields, ';') + ";";
    CanonicalToken(tab, raw, tag, covered);
    var token := raw[4 + |covered|..|raw| - 5];
    Hex4OfValue(token);
    assert Seal(tab, covered) == covered + token;
    assert raw == OpenTag(tag) + (covered + token) + CloseTag(tag) by {
      assert raw[..4] == OpenTag(tag);
      assert raw[|raw| - 5..] == CloseTag(tag);
      SliceSplit(raw, 4, 4 + |covered|, |raw| - 5);
      SliceSplit(raw, 0, 4, |raw| - 5);
      SliceSplit(raw, 0, |raw| - 5, |raw|);
    }
  }

  /** In a canonical trailed frame the checksum token is the four uppercase digits. */
  lemma CanonicalToken(tab: Table, raw: string, tag: Tag, covered: string)
    requires Trailed(tab, raw, tag, covered) && Canonical(raw)
    requires covered != [] && covered[|covered| - 1] == ';'
    ensures raw[4 + |covered|..|raw| - 5] == raw[|raw| - 9..|raw| - 5]
  {
    var token := raw[4 + |covered|..|raw| - 5];
    assert raw[3 + |covered|] == ';' by {
      assert raw[4..4 + |covered|][|covered| - 1] == covered[|covered| - 1];
    }
    assert forall p :: 4 + |covered| <= p < |raw| - 5 ==> raw[p] != ';' by {
      forall p | 4 + |covered| <= p < |raw| - 5
        ensures raw[p] != ';'
      {
        assert raw[p] == token[p - (4 + |covered|)];
      }
    }
    assert forall p :: |raw| - 9 <= p < |raw| - 5 ==> IsUpperHex(raw[p]) by {
      forall p | |raw| - 9 <= p < |raw| - 5
        ensures IsUpperHex(raw[p])
      {
        assert raw[p] == raw[|raw| - 9..|raw| - 5][p - (|raw| - 9)];
      }
    }
    if |token| != 4 {
      assert false;
    }
  }

  // ---------------------------------------------------------------------------
  // Marker packets: one ignored token, then the checksum of ";"

  /**
   * The marker shape, stated without `Split`: exactly one `;` in the body,
   * and after it the checksum of the text ";" in hex.
   */
  predicate MarkerFrame(tab: Table, raw: string, tag: Tag) {
    Wrapped(raw, tag) && |raw| >= 9 &&
    var body := raw[4..|raw| - 5];
    var i := FirstIndex(body, ';');
    i < |body| && ';' !in body[i + 1..] && ParseUint(body[i + 1..], 16, 16) == Some(TextCrc(tab, ";"))
  }

  /** Two `;`-separated tokens, the second the checksum of ";" whatever the first holds. */
  function OpenMarker(tab: Table, raw: string, tag: Tag): (r: Result<(), GoError>)
    ensures r.Ok? <==> MarkerFrame(tab, raw, tag)
    ensures !Wrapped(raw, tag) ==> r == Err(BadEnvelope(tag))
  {
    match SplitBody(raw, tag, 2)
    case Err(e) =>
      if Wrapped(raw, tag) then MarkerParts(raw[4..|raw| - 5]); Err(e) else Err(e)
    case Ok(parts) =>
      MarkerParts(raw[4..|raw| - 5]);
      CheckTrailer(tab, parts[1], ";")
  }

  /** Two pieces exactly when there is one `;`, the second piece being what follows it. */
  lemma MarkerParts(body: string)
    ensures var i := FirstIndex(body, ';');
            |Split(body, ';')| == 2 <==> i < |body| && ';' !in body[i + 1..]
    ensures var i := FirstIndex(body, ';');
            |Split(body, ';')| == 2 ==> Split(body, ';')[1] == body[i + 1..]
  {
    var i := FirstIndex(body, ';');
    if i < |body| {
      var rest := body[i + 1..];
      if ';' !in rest {
        SplitNoDelimiter(rest, ';');
      } else {
        assert |Split(rest, ';')| >= 2;
      }
    }
  }

  /** The marker encoder: an empty first token and the checksum of ";". */
  function CloseMarker(tab: Table, tag: Tag): string {
    Close(tab, tag, [""])
  }

  lemma OpenMarkerClose(tab: Table, tag: Tag)
    ensures OpenMarker(tab, CloseMarker(tab, tag), tag) == Ok(())
  {
    assert Join([""], ';') + ";" == "" + ";";
    MarkerIgnoresFirst(tab, tag, "");
  }

  /** The first token is never looked at: any `;`-free text there is accepted. */
  lemma MarkerIgnoresFirst(tab: Table, tag: Tag, junk: string)
    requires ';' !in junk
    ensures OpenMarker(tab, Wrap(tag, junk + ";" + Hex4(TextCrc(tab, ";"))), tag) == Ok(())
  {
    var token := Hex4(TextCrc(tab, ";"));
    var body := junk + ";" + token;
    var raw := Wrap(tag, body);
    UnwrapWrap(tag, body);
    Hex4Free(token);
    SplitFields([junk], token);
    JoinSmall(junk, "", "", ';');
    SplitBodyFrom(raw, tag, [junk, token]);
    ParseUintHex4(TextCrc(tab, ";"));
    OpenMarkerFrom(tab, raw, tag, [junk, token]);
  }

  /** Four uppercase hex digits hold no `;`. */
  lemma Hex4Free(token: string)
    requires AllUpperHex(token)
    ensures ';' !in token
  {
    assert forall i :: 0 <= i < |token| ==> IsUpperHex(token[i]);
  }

  /** Two split parts whose second is the checksum of ";" are accepted. */
  lemma OpenMarkerFrom(tab: Table, raw: string, tag: Tag, parts: seq<string>)
    requires SplitBody(raw, tag, 2) == Ok(parts)
    requires CheckTrailer(tab, parts[1], ";") == Ok(())
    ensures OpenMarker(tab, raw, tag) == Ok(())
  {
  }
}
