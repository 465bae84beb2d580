/** String helpers with the meaning JavaScript gives them in the application:
    `trim`, the regular-expression class `\s`, `toLowerCase` (ASCII part),
    `includes`, `join`, `split(/\s+/)`, and decimal rendering of integers. */
module Text {

  /** The WhiteSpace and LineTerminator code points of ECMAScript: what
      `String.prototype.trim` strips and what `\s` matches. */
  predicate IsSpace(c: char) {
    || c == ' ' || c == '\t' || c == '\n' || c == '\U{B}' || c == '\U{C}' || c == '\r'
    || c == '\U{A0}' || c == '\U{1680}' || ('\U{2000}' <= c <= '\U{200A}')
    || c == '\U{2028}' || c == '\U{2029}' || c == '\U{202F}' || c == '\U{205F}'
    || c == '\U{3000}' || c == '\U{FEFF}'
  }

  predicate AllSpace(s: string) {
    forall i :: 0 <= i < |s| ==> IsSpace(s[i])
  }

  predicate NoSpace(s: string) {
    forall i :: 0 <= i < |s| ==> !IsSpace(s[i])
  }

  /** Drops the longest all-space prefix. */
  function TrimStart(s: string): (r: string)
    ensures |r| <= |s| && r == s[|s| - |r|..]
    ensures AllSpace(s[..|s| - |r|])
    ensures r == [] || !IsSpace(r[0])
  {
    if s != [] && IsSpace(s[0]) then TrimStart(s[1..]) else s
  }

  /** Drops the longest all-space suffix. */
  function TrimEnd(s: string): (r: string)
    ensures |r| <= |s| && r == s[..|r|]
    ensures AllSpace(s[|r|..])
    ensures r == [] || !IsSpace(r[|r| - 1])
  {
    if s != [] && IsSpace(s[|s| - 1]) then
      var r := TrimEnd(s[..|s| - 1]);
      assert s[|r|..] == s[..|s| - 1][|r|..] + [s[|s| - 1]];
      r
    else s
  }

  /** `r` is `s` with the all-space text before index `a` and after `r` taken off. */
  predicate TrimmedAt(s: string, r: string, a: int) {
    0 <= a <= |s| - |r| && r == s[a..a + |r|] && AllSpace(s[..a]) && AllSpace(s[a + |r|..])
  }

  /** `s.trim()`: the text between the leading and the trailing run of spaces. */
  function Trim(s: string): (r: string)
    ensures r == [] || (!IsSpace(r[0]) && !IsSpace(r[|r| - 1]))
    ensures exists a :: TrimmedAt(s, r, a)
  {
    var t := TrimStart(s);
    var r := TrimEnd(t);
    var a := |s| - |t|;
    assert s[a..] == t;
    assert s[a..a + |r|] == r;
    assert s[a + |r|..] == t[|r|..];
    assert TrimmedAt(s, r, a);
    r
  }

  /** A search box is blank exactly when it holds nothing but spaces. */
  lemma {:induction false} TrimBlank(s: string)
    ensures Trim(s) == [] <==> AllSpace(s)
  {
    var t := TrimStart(s);
    if !AllSpace(s) {
      var i :| 0 <= i < |s| && !IsSpace(s[i]);
      assert i >= |s| - |t|;
      assert t[i - (|s| - |t|)] == s[i];
      assert TrimEnd(t) != [];
    }
  }

  /** ASCII part of `toLowerCase`. */
  function LowerChar(c: char): char {
    if 'A' <= c <= 'Z' then (c as int + 32) as char else c
  }

  function Lower(s: string): (r: string)
    ensures |r| == |s|
    ensures forall i :: 0 <= i < |r| ==> !('A' <= r[i] <= 'Z')
    ensures forall i :: 0 <= i < |r| ==> r[i] == s[i] || ('A' <= s[i] <= 'Z' && r[i] as int == s[i] as int + 32)
  {
    seq(|s|, i requires 0 <= i < |s| => LowerChar(s[i]))
  }

  predicate StartsWith(s: string, p: string) {
    |p| <= |s| && s[..|p|] == p
  }

  predicate OccursAt(s: string, q: string, i: int) {
    0 <= i <= |s| - |q| && s[i..i + |q|] == q
  }

  /** `s.includes(q)`, scanning from the left. */
  predicate Includes(s: string, q: string)
    decreases |s|
  {
    StartsWith(s, q) || (s != [] && Includes(s[1..], q))
  }

  /** `Includes` holds exactly when `q` occurs at some position of `s`. */
  lemma {:induction false} IncludesIff(s: string, q: string)
    ensures Includes(s, q) <==> exists i :: OccursAt(s, q, i)
    decreases |s|
  {
    if StartsWith(s, q) {
      assert OccursAt(s, q, 0);
    } else if s != [] {
      IncludesIff(s[1..], q);
      if Includes(s[1..], q) {
        var i :| OccursAt(s[1..], q, i);
        assert s[i + 1..i + 1 + |q|] == s[1..][i..i + |q|];
        assert OccursAt(s, q, i + 1);
      }
      if exists i :: OccursAt(s, q, i) {
        var i :| OccursAt(s, q, i);
        assert i > 0;
        assert s[1..][i - 1..i - 1 + |q|] == s[i..i + |q|];
        assert OccursAt(s[1..], q, i - 1);
      }
    } else {
      assert forall i :: !OccursAt(s, q, i);
    }
  }

  /** `parts.join(sep)`. */
  function Join(parts: seq<string>, sep: string): string {
    if parts == [] then ""
    else if |parts| == 1 then parts[0]
    else parts[0] + sep + Join(parts[1..], sep)
  }

  /** With a non-empty separator the joined text is empty exactly when there is
      nothing to join or one empty part. */
  lemma JoinEmpty(parts: seq<string>, sep: string)
    requires sep != ""
    ensures Join(parts, sep) == "" <==> parts == [] || (|parts| == 1 && parts[0] == "")
  {
    if |parts| > 1 {
      assert |Join(parts, sep)| >= |sep|;
    }
  }

  /** The index of the first space, or `|s|`. */
  function FirstSpace(s: string): (i: nat)
    ensures i <= |s| && NoSpace(s[..i]) && (i < |s| ==> IsSpace(s[i]))
  {
    if s == [] || IsSpace(s[0]) then 0
    else
      var i := 1 + FirstSpace(s[1..]);
      assert s[..i] == [s[0]] + s[1..][..i - 1];
      i
  }

  /** `s.split(/\s+/)`: the pieces between maximal runs of spaces. */
  function SplitWs(s: string): (r: seq<string>)
    ensures |r| >= 1
    ensures forall k :: 0 <= k < |r| ==> NoSpace(r[k])
    decreases |s|
  {
    var i := FirstSpace(s);
    if i == |s| then [s]
    else
      var rest := TrimStart(s[i..]);
      assert rest != s[i..];
      [s[..i]] + SplitWs(rest)
  }

  predicate WordsOk(words: seq<string>) {
    forall k :: 0 <= k < |words| ==> words[k] != "" && NoSpace(words[k])
  }

  /** Splitting undoes joining non-empty space-free words with single spaces. */
  lemma {:induction false} SplitJoin(words: seq<string>)
    requires words != [] && WordsOk(words)
    ensures SplitWs(Join(words, " ")) == words
  {
    if |words| == 1 {
      FirstSpaceNone(words[0]);
    } else {
      var rest := words[1..];
      var tail := Join(rest, " ");
      assert Join(words, " ") == words[0] + " " + tail;
      WordsOkTail(words);
      JoinStarts(rest);
      WordStart(rest[0]);
      SplitAfterWord(words[0], tail);
      SplitJoin(rest);
      assert [words[0]] + rest == words;
    }
  }

  lemma WordsOkTail(words: seq<string>)
    requires words != [] && WordsOk(words)
    ensures WordsOk(words[1..])
  {
    forall k | 0 <= k < |words| - 1
      ensures words[1..][k] != "" && NoSpace(words[1..][k])
    {
      assert words[1..][k] == words[k + 1];
    }
  }

  lemma WordStart(w: string)
    requires w != "" && NoSpace(w)
    ensures !IsSpace(w[0])
  {
  }

  lemma FirstSpaceNone(w: string)
    requires NoSpace(w)
    ensures FirstSpace(w) == |w|
  {
    if w != [] {
      FirstSpaceNone(w[1..]);
    }
  }

  /** One split step: the first word, then the split of what follows the single space. */
  lemma SplitAfterWord(w: string, tail: string)
    requires NoSpace(w) && tail != [] && !IsSpace(tail[0])
    ensures SplitWs(w + " " + tail) == [w] + SplitWs(tail)
  {
    var t := " " + tail;
    var s := w + t;
    assert s == w + " " + tail;
    assert TrimStart(t) == tail by {
      assert t[1..] == tail;
    }
    FirstSpaceAt(w, t);
    assert s[..|w|] == w && s[|w|..] == t;
  }

  lemma FirstSpaceAt(w: string, t: string)
    requires NoSpace(w) && t != [] && IsSpace(t[0])
    ensures FirstSpace(w + t) == |w|
  {
    if w != [] {
      assert (w + t)[1..] == w[1..] + t;
      FirstSpaceAt(w[1..], t);
    }
  }

  lemma JoinStarts(words: seq<string>)
    requires words != [] && WordsOk(words)
    ensures Join(words, " ") != [] && Join(words, " ")[0] == words[0][0]
  {
  }

  /** `a.localeCompare(b) <= 0`, read as code-point lexicographic order. */
  predicate LexLe(a: string, b: string)
    decreases |a|
  {
    a == [] || (b != [] && (a[0] < b[0] || (a[0] == b[0] && LexLe(a[1..], b[1..]))))
  }

  lemma {:induction false} LexLeTotal(a: string, b: string)
    ensures LexLe(a, b) || LexLe(b, a)
    decreases |a|
  {
    if a != [] && b != [] && a[0] == b[0] {
      LexLeTotal(a[1..], b[1..]);
    }
  }

  lemma {:induction false} LexLeTransitive(a: string, b: string, c: string)
    requires LexLe(a, b) && LexLe(b, c)
    ensures LexLe(a, c)
    decreases |a|
  {
    if a != [] && a[0] == b[0] && b[0] == c[0] {
      LexLeTransitive(a[1..], b[1..], c[1..]);
    }
  }

  predicate IsDigit(c: char) {
    '0' <= c <= '9'
  }

  predicate AllDigits(s: string) {
    forall i :: 0 <= i < |s| ==> IsDigit(s[i])
  }

  function DigitChar(d: nat): (c: char)
    requires d < 10
    ensures IsDigit(c)
  {
    ('0' as int + d) as char
  }

  /** The decimal digits of `n`, most significant first, as JavaScript renders an integer. */
  function NatToDigits(n: nat): (r: string)
    ensures r != [] && AllDigits(r)
    ensures |r| > 1 ==> r[0] != '0'
  {
    if n < 10 then [DigitChar(n)] else NatToDigits(n / 10) + [DigitChar(n % 10)]
  }

  function DigitsValue(ds: string): nat
    requires AllDigits(ds)
  {
    if ds == [] then 0 else DigitsValue(ds[..|ds| - 1]) * 10 + (ds[|ds| - 1] as int - '0' as int)
  }

  lemma {:induction false} DigitsRoundTrip(n: nat)
    ensures DigitsValue(NatToDigits(n)) == n
  {
    if n >= 10 {
      DigitsRoundTrip(n / 10);
      var ds := NatToDigits(n);
      assert ds[..|ds| - 1] == NatToDigits(n / 10);
    }
  }

  /** `String(n)` for an integer `n`. */
  function IntToString(n: int): (r: string)
    ensures r != []
  {
    if n < 0 then "-" + NatToDigits(-n) else NatToDigits(n)
  }
}
