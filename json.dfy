/** JSON as the browser's `JSON.stringify` writes it and `JSON.parse` reads it,
    restricted to integer numbers. `Encode` is the compact form `JSON.stringify`
    produces; `Decode` accepts the insignificant whitespace `JSON.parse` accepts
    and, like it, keeps one entry per object key (the position of the first
    occurrence, the value of the last). */
module Json {
  import opened Wrappers
  import opened Text

  datatype Json =
    | JNull
    | JBool(b: bool)
    | JNum(n: int)
    | JStr(s: string)
    | JArr(items: seq<Json>)
    | JObj(members: seq<(string, Json)>)

  predicate DistinctKeys(ms: seq<(string, Json)>) {
    forall i, j :: 0 <= i < j < |ms| ==> ms[i].0 != ms[j].0
  }

  /** A value a JavaScript program can hold: no object has the same key twice. */
  predicate WellFormed(v: Json) {
    match v
    case JArr(items) => forall i :: 0 <= i < |items| ==> WellFormed(items[i])
    case JObj(ms) => DistinctKeys(ms) && forall i :: 0 <= i < |ms| ==> WellFormed(ms[i].1)
    case _ => true
  }

  predicate AllWellFormed(xs: seq<Json>) {
    forall i :: 0 <= i < |xs| ==> WellFormed(xs[i])
  }

  /** The value of member `key` of an object, `None` when there is none (`undefined`). */
  function Lookup(ms: seq<(string, Json)>, key: string): (r: Option<Json>)
    ensures r.Some? <==> exists i :: 0 <= i < |ms| && ms[i].0 == key
    ensures r.Some? ==> exists i :: 0 <= i < |ms| && ms[i] == (key, r.value)
  {
    if ms == [] then None
    else if ms[0].0 == key then Some(ms[0].1)
    else
      var r := Lookup(ms[1..], key);
      assert forall i :: 0 < i < |ms| ==> ms[i] == ms[1..][i - 1];
      r
  }

  /** In an object without repeated keys, each member's key reads back its value. */
  lemma {:induction false} LookupMember(ms: seq<(string, Json)>, i: int)
    requires DistinctKeys(ms) && 0 <= i < |ms|
    ensures Lookup(ms, ms[i].0) == Some(ms[i].1)
  {
    if i > 0 {
      assert DistinctKeys(ms[1..]);
      LookupMember(ms[1..], i - 1);
    }
  }

  // ---------------------------------------------------------------------------
  // Encoding (JSON.stringify)

  function HexDigit(d: nat): (c: char)
    requires d < 16
  {
    "0123456789abcdef"[d]
  }

  /** How `JSON.stringify` writes one character inside a string literal. */
  function EscapeChar(c: char): string {
    if c == '"' then "\\\""
    else if c == '\\' then "\\\\"
    else if c == '\U{8}' then "\\b"
    else if c == '\t' then "\\t"
    else if c == '\n' then "\\n"
    else if c == '\U{C}' then "\\f"
    else if c == '\r' then "\\r"
    else if c < ' ' then "\\u00" + [HexDigit(c as int / 16), HexDigit(c as int % 16)]
    else [c]
  }

  function Escape(s: string): string {
    if s == [] then "" else EscapeChar(s[0]) + Escape(s[1..])
  }

  function Quote(s: string): string {
    "\"" + Escape(s) + "\""
  }

  function Encode(v: Json): string {
    match v
    case JNull => "null"
    case JBool(b) => if b then "true" else "false"
    case JNum(n) => IntToString(n)
    case JStr(s) => Quote(s)
    case JArr(items) => "[" + EncodeItems(items) + "]"
    case JObj(ms) => "{" + EncodeMembers(ms) + "}"
  }

  function EncodeItems(items: seq<Json>): string {
    if items == [] then ""
    else if |items| == 1 then Encode(items[0])
    else Encode(items[0]) + "," + EncodeItems(items[1..])
  }

  function EncodeMember(m: (string, Json)): string {
    Quote(m.0) + ":" + Encode(m.1)
  }

  function EncodeMembers(ms: seq<(string, Json)>): string {
    if ms == [] then ""
    else if |ms| == 1 then EncodeMember(ms[0])
    else EncodeMember(ms[0]) + "," + EncodeMembers(ms[1..])
  }

  // ---------------------------------------------------------------------------
  // Decoding (JSON.parse)

  /** The whitespace JSON allows between tokens. */
  predicate IsWs(c: char) {
    c == ' ' || c == '\t' || c == '\n' || c == '\r'
  }

  function SkipWs(s: string): (r: string)
    ensures |r| <= |s|
    ensures r == [] || !IsWs(r[0])
  {
    if s != [] && IsWs(s[0]) then SkipWs(s[1..]) else s
  }

  function HexValue(c: char): (r: Option<nat>)
    ensures r.Some? ==> r.value < 16
  {
    if '0' <= c <= '9' then Some(c as int - '0' as int)
    else if 'a' <= c <= 'f' then Some(c as int - 'a' as int + 10)
    else if 'A' <= c <= 'F' then Some(c as int - 'A' as int + 10)
    else None
  }

  /** The code unit written by four hex digits. */
  function HexCode(s: string): (r: Option<nat>)
    requires |s| == 4
    ensures r.Some? ==> r.value < 0x10000
  {
    match (HexValue(s[0]), HexValue(s[1]), HexValue(s[2]), HexValue(s[3]))
    case (Some(a), Some(b), Some(c), Some(d)) => Some(((a * 16 + b) * 16 + c) * 16 + d)
    case _ => None
  }

  /** The four hex digits of a `\u` escape that stands alone: a code unit
      outside the surrogate range. */
  function ParseUnicode(s: string): (r: Option<char>)
    requires |s| == 4
  {
    match HexCode(s)
    case Some(n) => if n < 0xD800 || 0xDFFF < n then Some(n as char) else None
    case None => None
  }

  /** The character above U+FFFF that a high and a low surrogate stand for. */
  function SurrogatePair(hi: nat, lo: nat): (c: char)
    requires 0xD800 <= hi <= 0xDBFF && 0xDC00 <= lo <= 0xDFFF
    ensures 0x10000 <= c as int
  {
    (0x10000 + (hi - 0xD800) * 0x400 + (lo - 0xDC00)) as char
  }

  /** A `\uD8xx\uDCxx` pair of escapes read as one character; `s` starts at the first `u`. */
  function ParsePair(s: string): (r: Option<(char, string)>)
    requires |s| >= 5
    ensures r.Some? ==> |r.value.1| < |s| && 0x10000 <= r.value.0 as int
  {
    if |s| >= 11 && s[5] == '\\' && s[6] == 'u' then
      match (HexCode(s[1..5]), HexCode(s[7..11]))
      case (Some(hi), Some(lo)) =>
        if 0xD800 <= hi <= 0xDBFF && 0xDC00 <= lo <= 0xDFFF then Some((SurrogatePair(hi, lo), s[11..]))
        else None
      case _ => None
    else None
  }

  /** The character an escape stands for; `s` starts after the backslash. */
  function ParseEscape(s: string): (r: Option<(char, string)>)
    ensures r.Some? ==> |r.value.1| < |s|
  {
    if s == [] then None
    else if s[0] == '"' then Some(('"', s[1..]))
    else if s[0] == '\\' then Some(('\\', s[1..]))
    else if s[0] == '/' then Some(('/', s[1..]))
    else if s[0] == 'b' then Some(('\U{8}', s[1..]))
    else if s[0] == 'f' then Some(('\U{C}', s[1..]))
    else if s[0] == 'n' then Some(('\n', s[1..]))
    else if s[0] == 'r' then Some(('\r', s[1..]))
    else if s[0] == 't' then Some(('\t', s[1..]))
    else if s[0] == 'u' && |s| >= 5 then
      match ParseUnicode(s[1..5])
      case Some(c) => Some((c, s[5..]))
      case None => ParsePair(s)
    else None
  }

  /** The body of a string literal; `s` starts after the opening quote. */
  function ParseString(s: string): (r: Option<(string, string)>)
    ensures r.Some? ==> |r.value.1| < |s|
    decreases |s|
  {
    if s == [] then None
    else if s[0] == '"' then Some(([], s[1..]))
    else if s[0] == '\\' then
      match ParseEscape(s[1..])
      case None => None
      case Some((c, rest)) =>
        match ParseString(rest)
        case None => None
        case Some((t, rest')) => Some(([c] + t, rest'))
    else if s[0] < ' ' then None
    else
      match ParseString(s[1..])
      case None => None
      case Some((t, rest)) => Some(([s[0]] + t, rest))
  }

  /** The longest prefix of decimal digits. */
  function TakeDigits(s: string): (r: string)
    ensures |r| <= |s| && r == s[..|r|] && AllDigits(r)
  {
    if s != [] && IsDigit(s[0]) then [s[0]] + TakeDigits(s[1..]) else []
  }

  /** An integer: an optional minus, then `0` or digits without a leading zero. */
  function ParseNumber(t: string): (r: Option<(Json, string)>)
    ensures r.Some? ==> |r.value.1| < |t| && WellFormed(r.value.0)
  {
    var neg := t != [] && t[0] == '-';
    var u := if neg then t[1..] else t;
    var ds := TakeDigits(u);
    if ds == [] || (|ds| > 1 && ds[0] == '0') then None
    else
      var n: int := DigitsValue(ds);
      Some((JNum(if neg then -n else n), u[|ds|..]))
  }

  function ParseLiteral(t: string, word: string, v: Json): (r: Option<(Json, string)>)
    requires word != [] && WellFormed(v)
    ensures r.Some? ==> |r.value.1| < |t| && WellFormed(r.value.0)
  {
    if StartsWith(t, word) then Some((v, t[|word|..])) else None
  }

  function ParseValue(s: string): (r: Option<(Json, string)>)
    ensures r.Some? ==> |r.value.1| < |s| && WellFormed(r.value.0)
    decreases |s|, 0
  {
    var t := SkipWs(s);
    if t == [] then None
    else if t[0] == 'n' then ParseLiteral(t, "null", JNull)
    else if t[0] == 't' then ParseLiteral(t, "true", JBool(true))
    else if t[0] == 'f' then ParseLiteral(t, "false", JBool(false))
    else if t[0] == '"' then
      match ParseString(t[1..])
      case None => None
      case Some((str, rest)) => Some((JStr(str), rest))
    else if t[0] == '[' then ParseArray(t[1..])
    else if t[0] == '{' then ParseObject(t[1..])
    else ParseNumber(t)
  }

  /** An array after its `[`. */
  function ParseArray(s: string): (r: Option<(Json, string)>)
    ensures r.Some? ==> |r.value.1| < |s| && WellFormed(r.value.0)
    decreases |s|, 2
  {
    var t := SkipWs(s);
    if t != [] && t[0] == ']' then Some((JArr([]), t[1..]))
    else
      match ParseItems(s)
      case None => None
      case Some((items, rest)) => Some((JArr(items), rest))
  }

  /** One or more comma-separated values and the closing `]`. */
  function ParseItems(s: string): (r: Option<(seq<Json>, string)>)
    ensures r.Some? ==> |r.value.1| < |s| && forall i :: 0 <= i < |r.value.0| ==> WellFormed(r.value.0[i])
    decreases |s|, 1
  {
    match ParseValue(s)
    case None => None
    case Some((v, rest)) =>
      var t := SkipWs(rest);
      if t == [] then None
      else if t[0] == ',' then
        match ParseItems(t[1..])
        case None => None
        case Some((vs, rest')) => Some(([v] + vs, rest'))
      else if t[0] == ']' then Some(([v], t[1..]))
      else None
  }

  /** An object after its `{`. */
  function ParseObject(s: string): (r: Option<(Json, string)>)
    ensures r.Some? ==> |r.value.1| < |s| && WellFormed(r.value.0)
    decreases |s|, 2
  {
    var t := SkipWs(s);
    if t != [] && t[0] == '}' then Some((JObj([]), t[1..]))
    else
      match ParseMembers(s)
      case None => None
      case Some((ms, rest)) => Some((JObj(Normalize(ms)), rest))
  }

  /** One or more comma-separated `"key":value` pairs and the closing `}`. */
  function ParseMembers(s: string): (r: Option<(seq<(string, Json)>, string)>)
    ensures r.Some? ==> |r.value.1| < |s| && forall i :: 0 <= i < |r.value.0| ==> WellFormed(r.value.0[i].1)
    decreases |s|, 1
  {
    var t := SkipWs(s);
    if t == [] || t[0] != '"' then None
    else
      match ParseString(t[1..])
      case None => None
      case Some((key, r1)) =>
        var t1 := SkipWs(r1);
        if t1 == [] || t1[0] != ':' then None
        else
          match ParseValue(t1[1..])
          case None => None
          case Some((v, r2)) =>
            var t2 := SkipWs(r2);
            if t2 == [] then None
            else if t2[0] == ',' then
              match ParseMembers(t2[1..])
              case None => None
              case Some((ms, rest)) => Some(([(key, v)] + ms, rest))
            else if t2[0] == '}' then Some(([(key, v)], t2[1..]))
            else None
  }

  /** Sets `key` in an object under construction: a new key goes last, a known
      key keeps its place and takes the new value. */
  function Put(ms: seq<(string, Json)>, key: string, v: Json): (r: seq<(string, Json)>)
    ensures DistinctKeys(ms) ==> DistinctKeys(r)
    ensures forall i :: 0 <= i < |r| ==> r[i] == (key, v) || r[i] in ms
  {
    if ms == [] then [(key, v)]
    else if ms[0].0 == key then [(key, v)] + ms[1..]
    else
      var r := [ms[0]] + Put(ms[1..], key, v);
      assert forall i :: 0 < i < |r| ==> r[i] == Put(ms[1..], key, v)[i - 1];
      r
  }

  function NormalizeInto(acc: seq<(string, Json)>, ms: seq<(string, Json)>): (r: seq<(string, Json)>)
    ensures DistinctKeys(acc) ==> DistinctKeys(r)
    ensures forall i :: 0 <= i < |r| ==> r[i] in acc || r[i] in ms
    decreases |ms|
  {
    if ms == [] then acc else NormalizeInto(Put(acc, ms[0].0, ms[0].1), ms[1..])
  }

  /** The object `JSON.parse` builds from the members in text order. */
  function Normalize(ms: seq<(string, Json)>): (r: seq<(string, Json)>)
    ensures DistinctKeys(r)
    ensures forall i :: 0 <= i < |r| ==> r[i] in ms
  {
    NormalizeInto([], ms)
  }

  /** `JSON.parse(text)`: one value, surrounded by optional whitespace. */
  function Decode(text: string): (r: Option<Json>)
    ensures r.Some? ==> WellFormed(r.value)
  {
    match ParseValue(text)
    case Some((v, rest)) => if SkipWs(rest) == [] then Some(v) else None
    case None => None
  }

  // ---------------------------------------------------------------------------
  // Round trip: JSON.parse(JSON.stringify(v)) gives v back

  /** What may follow an encoded value without changing how it is read. */
  predicate Boundary(rest: string) {
    rest == [] || !IsDigit(rest[0])
  }

  lemma HexRoundTrip(d: nat)
    requires d < 16
    ensures HexValue(HexDigit(d)) == Some(d)
  {
  }

  /** Reading one escaped character and then the rest of the literal. */
  lemma EscapeCharStep(c: char, tail: string)
    ensures ParseString(EscapeChar(c) + tail) ==
              match ParseString(tail)
              case None => None
              case Some((t, r)) => Some(([c] + t, r))
  {
    if c == '"' || c == '\\' || c == '\U{8}' || c == '\t' || c == '\n' || c == '\U{C}' || c == '\r' {
      NamedEscapeStep(c, tail);
    } else if c < ' ' {
      ControlEscapeStep(c, tail);
    } else {
      var s := EscapeChar(c) + tail;
      assert s[0] == c && s[1..] == tail;
    }
  }

  lemma NamedEscapeStep(c: char, tail: string)
    requires c == '"' || c == '\\' || c == '\U{8}' || c == '\t' || c == '\n' || c == '\U{C}' || c == '\r'
    ensures ParseString(EscapeChar(c) + tail) ==
              match ParseString(tail)
              case None => None
              case Some((t, r)) => Some(([c] + t, r))
  {
    var s := EscapeChar(c) + tail;
    assert s[0] == '\\' && s[1..][1..] == tail;
  }

  lemma ControlEscapeStep(c: char, tail: string)
    requires c < ' '
    requires !(c == '\U{8}' || c == '\t' || c == '\n' || c == '\U{C}' || c == '\r')
    ensures ParseString(EscapeChar(c) + tail) ==
              match ParseString(tail)
              case None => None
              case Some((t, r)) => Some(([c] + t, r))
  {
    var hex := ['0', '0', HexDigit(c as int / 16), HexDigit(c as int % 16)];
    assert EscapeChar(c) == "\\u" + hex;
    ControlUnicode(c);
    UnicodeEscapeParse(hex, tail, c);
  }

  /** A `\u` escape whose four hex digits denote `c`, then the rest of the literal. */
  lemma UnicodeEscapeParse(hex: string, tail: string, c: char)
    requires |hex| == 4 && ParseUnicode(hex) == Some(c)
    ensures ParseString("\\u" + hex + tail) ==
              match ParseString(tail)
              case None => None
              case Some((t, r)) => Some(([c] + t, r))
  {
    var s := "\\u" + hex + tail;
    var e := s[1..];
    assert s[0] == '\\' && e == "u" + hex + tail;
    assert e[0] == 'u' && e[1..5] == hex && e[5..] == tail;
    assert ParseEscape(e) == Some((c, tail));
  }

  lemma ControlUnicode(c: char)
    requires c < ' '
    ensures ParseUnicode(['0', '0', HexDigit(c as int / 16), HexDigit(c as int % 16)]) == Some(c)
  {
    var h1, h2 := c as int / 16, c as int % 16;
    HexRoundTrip(h1);
    HexRoundTrip(h2);
    assert ((0 * 16 + 0) * 16 + h1) * 16 + h2 == c as int;
  }

  /** Every character above U+FFFF is the pair of its UTF-16 halves. */
  lemma SurrogateHalves(c: char)
    requires 0x10000 <= c as int
    ensures var v := c as int - 0x10000;
      0xD800 <= 0xD800 + v / 0x400 <= 0xDBFF && 0xDC00 <= 0xDC00 + v % 0x400 <= 0xDFFF &&
      SurrogatePair(0xD800 + v / 0x400, 0xDC00 + v % 0x400) == c
  {
    assert c as int <= 0x10FFFF;
  }

  /** `JSON.parse('"\\ud83d\\ude00"')` is the one character U+1F600. */
  lemma PairExample()
    ensures ParseString("\\ud83d\\ude00\"") == Some(("\U{1F600}", ""))
  {
    var e := "ud83d\\ude00\"";
    assert HexCode(e[1..5]) == Some(0xD83D);
    assert HexCode(e[7..11]) == Some(0xDE00);
    assert ParseUnicode(e[1..5]).None?;
    assert ParseEscape(e) == Some(('\U{1F600}', "\""));
    var lit := "\\ud83d\\ude00\"";
    assert lit[0] == '\\' && lit[1..] == e;
    assert ParseString("\"") == Some(([], ""));
    assert ParseString(lit) == Some((['\U{1F600}'] + [], ""));
    assert ['\U{1F600}'] + [] == "\U{1F600}";
  }

  lemma {:induction false} StringRoundTrip(str: string, rest: string)
    ensures ParseString(Escape(str) + "\"" + rest) == Some((str, rest))
    decreases |str|
  {
    if str == [] {
      assert Escape(str) + "\"" + rest == "\"" + rest;
    } else {
      var tail := Escape(str[1..]) + "\"" + rest;
      assert Escape(str) + "\"" + rest == EscapeChar(str[0]) + tail;
      StringRoundTrip(str[1..], rest);
      EscapeCharStep(str[0], tail);
      assert [str[0]] + str[1..] == str;
    }
  }

  lemma {:induction false} TakeDigitsAppend(ds: string, rest: string)
    requires AllDigits(ds) && Boundary(rest)
    ensures TakeDigits(ds + rest) == ds
    decreases |ds|
  {
    if ds != [] {
      assert (ds + rest)[1..] == ds[1..] + rest;
      TakeDigitsAppend(ds[1..], rest);
    } else {
      assert ds + rest == rest;
    }
  }

  lemma NumberRoundTrip(n: int, rest: string)
    requires Boundary(rest)
    ensures ParseNumber(IntToString(n) + rest) == Some((JNum(n), rest))
  {
    if n < 0 {
      NegativeText(n, rest);
      NegativeParse(-n, rest);
    } else {
      NonNegativeParse(n, rest);
    }
  }

  lemma NegativeText(n: int, rest: string)
    requires n < 0
    ensures IntToString(n) + rest == "-" + (NatToDigits(-n) + rest)
  {
  }

  lemma NonNegativeParse(m: nat, rest: string)
    requires Boundary(rest)
    ensures ParseNumber(NatToDigits(m) + rest) == Some((JNum(m), rest))
  {
    UnsignedParse(m, rest);
  }

  lemma NegativeParse(m: nat, rest: string)
    requires Boundary(rest)
    ensures ParseNumber("-" + (NatToDigits(m) + rest)) == Some((JNum(-(m as int)), rest))
  {
    var u := NatToDigits(m) + rest;
    var t := "-" + u;
    assert t[0] == '-' && t[1..] == u;
    UnsignedParse(m, rest);
  }

  /** The digits of a natural number read back, and reading stops where they end. */
  lemma UnsignedParse(m: nat, rest: string)
    requires Boundary(rest)
    ensures var ds := NatToDigits(m);
      && TakeDigits(ds + rest) == ds && (ds + rest)[|ds|..] == rest
      && DigitsValue(ds) == m && (ds + rest)[0] == ds[0] && IsDigit(ds[0])
  {
    var ds := NatToDigits(m);
    TakeDigitsAppend(ds, rest);
    DigitsRoundTrip(m);
    assert (ds + rest)[|ds|..] == rest;
  }

  /** The first character of an encoded value opens the value: never
      whitespace, a separator or a closing bracket. */
  lemma EncodeStart(v: Json)
    ensures Encode(v) != []
    ensures var c := Encode(v)[0];
      c == 'n' || c == 't' || c == 'f' || c == '"' || c == '[' || c == '{' || c == '-' || IsDigit(c)
  {
    match v
    case JNum(n) =>
      if n >= 0 {
        assert IsDigit(NatToDigits(n)[0]);
      }
    case _ =>
  }

  lemma PutFresh(ms: seq<(string, Json)>, key: string, v: Json)
    requires forall i :: 0 <= i < |ms| ==> ms[i].0 != key
    ensures Put(ms, key, v) == ms + [(key, v)]
  {
    if ms != [] {
      PutFresh(ms[1..], key, v);
    }
  }

  /** After `Put`, the key reads back the new value and every other key reads as before. */
  lemma {:induction false} PutLookup(ms: seq<(string, Json)>, key: string, v: Json, k: string)
    ensures Lookup(Put(ms, key, v), k) == if k == key then Some(v) else Lookup(ms, k)
  {
    if ms != [] && ms[0].0 != key {
      PutLookup(ms[1..], key, v, k);
      assert Put(ms, key, v)[1..] == Put(ms[1..], key, v);
    }
  }

  lemma {:induction false} NormalizeIntoAppend(acc: seq<(string, Json)>, ms: seq<(string, Json)>)
    requires DistinctKeys(acc + ms)
    ensures NormalizeInto(acc, ms) == acc + ms
    decreases |ms|
  {
    if ms == [] {
      assert acc + ms == acc;
    } else {
      var both := acc + ms;
      var m := ms[0];
      forall i | 0 <= i < |acc|
        ensures acc[i].0 != m.0
      {
        assert both[i] == acc[i] && both[|acc|] == m;
      }
      PutFresh(acc, m.0, m.1);
      assert (acc + [m]) + ms[1..] == both;
      NormalizeIntoAppend(acc + [m], ms[1..]);
    }
  }

  /** `JSON.parse` keeps an object whose keys are distinct as it was written. */
  lemma NormalizeDistinct(ms: seq<(string, Json)>)
    requires DistinctKeys(ms)
    ensures Normalize(ms) == ms
  {
    assert [] + ms == ms;
    NormalizeIntoAppend([], ms);
  }

  /** The values without inner values: literals, numbers and strings. */
  lemma ScalarParse(v: Json, rest: string)
    requires !v.JArr? && !v.JObj? && Boundary(rest)
    ensures ParseValue(Encode(v) + rest) == Some((v, rest))
  {
    match v
    case JNull => LiteralParse("null", JNull, rest);
    case JBool(b) =>
      if b {
        LiteralParse("true", JBool(true), rest);
      } else {
        LiteralParse("false", JBool(false), rest);
      }
    case JNum(n) => NumberValueParse(n, rest);
    case JStr(str) => StringValueParse(str, rest);
  }

  lemma LiteralParse(word: string, v: Json, rest: string)
    requires (word == "null" && v == JNull) || (word == "true" && v == JBool(true)) || (word == "false" && v == JBool(false))
    ensures ParseValue(word + rest) == Some((v, rest))
  {
    var s := word + rest;
    assert s[0] == word[0] && SkipWs(s) == s;
    assert s[..|word|] == word && s[|word|..] == rest;
  }

  lemma NumberValueParse(n: int, rest: string)
    requires Boundary(rest)
    ensures ParseValue(IntToString(n) + rest) == Some((JNum(n), rest))
  {
    EncodeStart(JNum(n));
    var s := IntToString(n) + rest;
    assert s[0] == IntToString(n)[0] && SkipWs(s) == s;
    NumberRoundTrip(n, rest);
  }

  lemma StringValueParse(str: string, rest: string)
    ensures ParseValue(Quote(str) + rest) == Some((JStr(str), rest))
  {
    var s := Quote(str) + rest;
    assert s[0] == '"' && SkipWs(s) == s;
    assert s[1..] == Escape(str) + "\"" + rest;
    StringRoundTrip(str, rest);
  }

  lemma ParseValueArray(s: string)
    requires s != [] && s[0] == '['
    ensures ParseValue(s) == ParseArray(s[1..])
  {
    assert SkipWs(s) == s;
  }

  lemma ParseValueObject(s: string)
    requires s != [] && s[0] == '{'
    ensures ParseValue(s) == ParseObject(s[1..])
  {
    assert SkipWs(s) == s;
  }

  lemma ParseArrayItems(s: string, items: seq<Json>, rest: string)
    requires s != [] && !IsWs(s[0]) && s[0] != ']'
    requires ParseItems(s) == Some((items, rest))
    ensures ParseArray(s) == Some((JArr(items), rest))
  {
    assert SkipWs(s) == s;
  }

  lemma ParseObjectMembers(s: string, ms: seq<(string, Json)>, rest: string)
    requires s != [] && s[0] == '"'
    requires ParseMembers(s) == Some((ms, rest))
    ensures ParseObject(s) == Some((JObj(Normalize(ms)), rest))
  {
    assert SkipWs(s) == s;
  }

  lemma {:induction false} EncodeParse(v: Json, rest: string)
    requires WellFormed(v) && Boundary(rest)
    ensures ParseValue(Encode(v) + rest) == Some((v, rest))
    decreases v
  {
    match v
    case JArr(items) =>
      if items == [] {
        EmptyArrayParse(rest);
      } else {
        ItemsParse(items, rest);
        ArrayParse(items, rest);
      }
    case JObj(ms) =>
      if ms == [] {
        EmptyObjectParse(rest);
      } else {
        MembersParse(ms, rest);
        ObjectParse(ms, rest);
      }
    case _ =>
      ScalarParse(v, rest);
  }

  lemma EmptyArrayParse(rest: string)
    ensures ParseValue(Encode(JArr([])) + rest) == Some((JArr([]), rest))
  {
    var s := Encode(JArr([])) + rest;
    assert s == "[" + ("]" + rest);
    ParseValueArray(s);
    assert s[1..] == "]" + rest;
    assert SkipWs(s[1..]) == s[1..];
  }

  lemma EmptyObjectParse(rest: string)
    ensures ParseValue(Encode(JObj([])) + rest) == Some((JObj([]), rest))
  {
    var s := Encode(JObj([])) + rest;
    assert s == "{" + ("}" + rest);
    ParseValueObject(s);
    assert s[1..] == "}" + rest;
    assert SkipWs(s[1..]) == s[1..];
  }

  /** An encoded non-empty array, once its items have been read. */
  lemma ArrayParse(items: seq<Json>, rest: string)
    requires items != []
    requires ParseItems(EncodeItems(items) + "]" + rest) == Some((items, rest))
    ensures ParseValue(Encode(JArr(items)) + rest) == Some((JArr(items), rest))
  {
    ArrayText(items, rest);
    ItemsOpen(items, rest);
    ArrayFrom(EncodeItems(items) + "]" + rest, items, rest);
  }

  lemma ArrayText(items: seq<Json>, rest: string)
    ensures Encode(JArr(items)) + rest == "[" + (EncodeItems(items) + "]" + rest)
  {
    Bracket("[", EncodeItems(items), "]", rest);
  }

  lemma ItemsOpen(items: seq<Json>, rest: string)
    requires items != []
    ensures var s := EncodeItems(items) + "]" + rest;
      s != [] && !IsWs(s[0]) && s[0] != ']'
  {
    ItemsStart(items, "]" + rest);
    assert EncodeItems(items) + "]" + rest == EncodeItems(items) + ("]" + rest);
  }

  lemma ArrayFrom(body: string, items: seq<Json>, rest: string)
    requires body != [] && !IsWs(body[0]) && body[0] != ']'
    requires ParseItems(body) == Some((items, rest))
    ensures ParseValue("[" + body) == Some((JArr(items), rest))
  {
    var s := "[" + body;
    assert s[0] == '[' && s[1..] == body;
    ParseValueArray(s);
    ParseArrayItems(body, items, rest);
  }

  /** An encoded non-empty object with distinct keys, once its members have been read. */
  lemma ObjectParse(ms: seq<(string, Json)>, rest: string)
    requires ms != [] && DistinctKeys(ms)
    requires ParseMembers(EncodeMembers(ms) + "}" + rest) == Some((ms, rest))
    ensures ParseValue(Encode(JObj(ms)) + rest) == Some((JObj(ms), rest))
  {
    ObjectText(ms, rest);
    MembersOpen(ms, rest);
    NormalizeDistinct(ms);
    ObjectFrom(EncodeMembers(ms) + "}" + rest, ms, rest);
  }

  lemma ObjectText(ms: seq<(string, Json)>, rest: string)
    ensures Encode(JObj(ms)) + rest == "{" + (EncodeMembers(ms) + "}" + rest)
  {
    Bracket("{", EncodeMembers(ms), "}", rest);
  }

  lemma MembersOpen(ms: seq<(string, Json)>, rest: string)
    requires ms != []
    ensures var s := EncodeMembers(ms) + "}" + rest;
      s != [] && s[0] == '"'
  {
    MembersStart(ms, "}" + rest);
    assert EncodeMembers(ms) + "}" + rest == EncodeMembers(ms) + ("}" + rest);
  }

  lemma ObjectFrom(body: string, ms: seq<(string, Json)>, rest: string)
    requires body != [] && body[0] == '"'
    requires ParseMembers(body) == Some((ms, rest)) && Normalize(ms) == ms
    ensures ParseValue("{" + body) == Some((JObj(ms), rest))
  {
    var s := "{" + body;
    assert s[0] == '{' && s[1..] == body;
    ParseValueObject(s);
    ParseObjectMembers(body, ms, rest);
  }

  lemma Bracket(open: string, inner: string, close: string, rest: string)
    ensures open + inner + close + rest == open + (inner + close + rest)
  {
  }

  lemma ItemsStart(items: seq<Json>, more: string)
    requires items != []
    ensures var s := EncodeItems(items) + more;
      s != [] && !IsWs(s[0]) && s[0] != ']'
  {
    EncodeStart(items[0]);
  }

  lemma MembersStart(ms: seq<(string, Json)>, more: string)
    requires ms != []
    ensures var s := EncodeMembers(ms) + more;
      s != [] && s[0] == '"'
  {
  }

  lemma {:induction false} ItemsParse(items: seq<Json>, rest: string)
    requires items != [] && forall i :: 0 <= i < |items| ==> WellFormed(items[i])
    ensures ParseItems(EncodeItems(items) + "]" + rest) == Some((items, rest))
    decreases items
  {
    var x := items[0];
    if |items| == 1 {
      var more := "]" + rest;
      assert EncodeItems(items) + "]" + rest == Encode(x) + more;
      EncodeParse(x, more);
      assert SkipWs(more) == more;
      assert more[1..] == rest;
      assert items == [x];
    } else {
      var more := EncodeItems(items[1..]) + "]" + rest;
      assert EncodeItems(items) + "]" + rest == Encode(x) + ("," + more);
      EncodeParse(x, "," + more);
      assert SkipWs("," + more) == "," + more;
      assert ("," + more)[1..] == more;
      ItemsParse(items[1..], rest);
      assert [x] + items[1..] == items;
    }
  }

  /** Reading one encoded member up to what follows it. */
  lemma {:induction false} MemberParse(m: (string, Json), more: string)
    requires WellFormed(m.1) && Boundary(more)
    ensures var s := EncodeMember(m) + more;
      && SkipWs(s) == s && s[0] == '"'
      && ParseString(s[1..]) == Some((m.0, ":" + (Encode(m.1) + more)))
      && ParseValue(Encode(m.1) + more) == Some((m.1, more))
    decreases m
  {
    MemberText(m, more);
    StringRoundTrip(m.0, ":" + (Encode(m.1) + more));
    EncodeParse(m.1, more);
  }

  /** An encoded member opens with a quote, then the escaped key, a quote and a colon. */
  lemma MemberText(m: (string, Json), more: string)
    ensures var s := EncodeMember(m) + more;
      && s != [] && SkipWs(s) == s && s[0] == '"'
      && s[1..] == Escape(m.0) + "\"" + (":" + (Encode(m.1) + more))
  {
    var afterKey := ":" + (Encode(m.1) + more);
    var s := EncodeMember(m) + more;
    assert s == "\"" + (Escape(m.0) + "\"" + afterKey);
  }

  /** One unfolding of `ParseMembers` over a member that has been read. */
  lemma ParseMembersStep(s: string, key: string, v: Json, more: string)
    requires SkipWs(s) == s && s != [] && s[0] == '"'
    requires ParseString(s[1..]) == Some((key, ":" + (Encode(v) + more)))
    requires ParseValue(Encode(v) + more) == Some((v, more))
    requires more != [] && (more[0] == ',' || more[0] == '}')
    ensures ParseMembers(s) ==
              if more[0] == '}' then Some(([(key, v)], more[1..]))
              else match ParseMembers(more[1..])
                   case None => None
                   case Some((ms, rest)) => Some(([(key, v)] + ms, rest))
  {
    var afterKey := ":" + (Encode(v) + more);
    assert SkipWs(afterKey) == afterKey && afterKey[1..] == Encode(v) + more;
    assert SkipWs(more) == more;
  }

  lemma {:induction false} MembersParse(ms: seq<(string, Json)>, rest: string)
    requires ms != [] && forall i :: 0 <= i < |ms| ==> WellFormed(ms[i].1)
    ensures ParseMembers(EncodeMembers(ms) + "}" + rest) == Some((ms, rest))
    decreases ms
  {
    if |ms| == 1 {
      MemberParse(ms[0], "}" + rest);
      LastMember(ms, rest);
    } else {
      var tailText := EncodeMembers(ms[1..]) + "}" + rest;
      MemberParse(ms[0], "," + tailText);
      MembersParse(ms[1..], rest);
      MemberThen(EncodeMember(ms[0]) + ("," + tailText), ms[0].0, ms[0].1, tailText, ms[1..], rest);
      MembersText(ms, rest);
      FirstAndOthers(ms);
    }
  }

  lemma FirstAndOthers(ms: seq<(string, Json)>)
    requires ms != []
    ensures [(ms[0].0, ms[0].1)] + ms[1..] == ms
  {
  }

  lemma LastMember(ms: seq<(string, Json)>, rest: string)
    requires |ms| == 1
    requires var s := EncodeMember(ms[0]) + ("}" + rest);
      && SkipWs(s) == s && s[0] == '"'
      && ParseString(s[1..]) == Some((ms[0].0, ":" + (Encode(ms[0].1) + ("}" + rest))))
      && ParseValue(Encode(ms[0].1) + ("}" + rest)) == Some((ms[0].1, "}" + rest))
    ensures ParseMembers(EncodeMembers(ms) + "}" + rest) == Some((ms, rest))
  {
    var more := "}" + rest;
    var s := EncodeMembers(ms) + "}" + rest;
    assert s == EncodeMember(ms[0]) + more;
    ParseMembersStep(s, ms[0].0, ms[0].1, more);
    assert more[1..] == rest;
    assert ms == [(ms[0].0, ms[0].1)];
  }

  /** The encoded members of a longer object: the first member, a comma, the others. */
  lemma MembersText(ms: seq<(string, Json)>, rest: string)
    requires |ms| > 1
    ensures EncodeMembers(ms) + "}" + rest
            == EncodeMember(ms[0]) + ("," + (EncodeMembers(ms[1..]) + "}" + rest))
  {
    var a, b := EncodeMember(ms[0]), EncodeMembers(ms[1..]);
    assert EncodeMembers(ms) == a + "," + b;
    Regroup(a, ",", b, "}", rest);
  }

  lemma Regroup(a: string, b: string, c: string, d: string, e: string)
    ensures a + b + c + d + e == a + (b + (c + d + e))
  {
  }

  lemma MemberThen(s: string, key: string, v: Json, tailText: string, tailMs: seq<(string, Json)>, rest: string)
    requires SkipWs(s) == s && s != [] && s[0] == '"'
    requires ParseString(s[1..]) == Some((key, ":" + (Encode(v) + ("," + tailText))))
    requires ParseValue(Encode(v) + ("," + tailText)) == Some((v, "," + tailText))
    requires ParseMembers(tailText) == Some((tailMs, rest))
    ensures ParseMembers(s) == Some(([(key, v)] + tailMs, rest))
  {
    ParseMembersStep(s, key, v, "," + tailText);
    assert ("," + tailText)[1..] == tailText;
  }

  /** Storing a value and reading it back gives the same value. */
  lemma DecodeEncode(v: Json)
    requires WellFormed(v)
    ensures Decode(Encode(v)) == Some(v)
  {
    assert Encode(v) + "" == Encode(v);
    EncodeParse(v, "");
  }
}
