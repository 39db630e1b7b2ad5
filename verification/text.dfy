/** String vocabulary of the Rust standard library that the reader relies on:
    prefixes and substrings, ASCII case folding, splitting on separator
    characters and joining, `trim`, UTF-8 byte length, and the decimal
    rendering / `u64` parsing used in backup file names. Strings are `seq<char>`
    whose elements are Unicode scalar values. */
module Text {
  import opened Wrappers

  predicate StartsWith(s: string, prefix: string) {
    |prefix| <= |s| && s[..|prefix|] == prefix
  }

  predicate OccursAt(hay: string, needle: string, i: int) {
    0 <= i && i + |needle| <= |hay| && hay[i..i + |needle|] == needle
  }

  /** `str::contains` with a string pattern. */
  predicate Contains(hay: string, needle: string) {
    exists i | 0 <= i <= |hay| - |needle| :: OccursAt(hay, needle, i)
  }

  // ---------------------------------------------------------------------------
  // ASCII case folding (`to_ascii_lowercase`, `eq_ignore_ascii_case`)

  function AsciiLowerChar(c: char): char {
    if 'A' <= c <= 'Z' then (c as int + 32) as char else c
  }

  function AsciiLower(s: string): (r: string)
    ensures |r| == |s|
    ensures forall i :: 0 <= i < |s| ==> r[i] == AsciiLowerChar(s[i])
  {
    seq(|s|, i requires 0 <= i < |s| => AsciiLowerChar(s[i]))
  }

  predicate EqIgnoreAsciiCase(a: string, b: string) {
    |a| == |b| && forall i :: 0 <= i < |a| ==> AsciiLowerChar(a[i]) == AsciiLowerChar(b[i])
  }

  // ---------------------------------------------------------------------------
  // Splitting on a set of separator characters, dropping empty pieces
  // (`split([..]).filter(|p| !p.is_empty())`), and joining.

  predicate SepFree(w: string, seps: set<char>) {
    forall j :: 0 <= j < |w| ==> w[j] !in seps
  }

  /** Index of the first separator in `s`, or `|s|` when there is none. */
  function FirstSep(s: string, seps: set<char>): (i: nat)
    ensures i <= |s|
    ensures SepFree(s[..i], seps)
    ensures i < |s| ==> s[i] in seps
  {
    FirstSepFrom(s, seps, 0)
  }

  /** Index of the first separator at or after `k`. */
  function FirstSepFrom(s: string, seps: set<char>, k: nat): (i: nat)
    requires k <= |s|
    ensures k <= i <= |s|
    ensures forall j :: k <= j < i ==> s[j] !in seps
    ensures i < |s| ==> s[i] in seps
    decreases |s| - k
  {
    if k == |s| then k
    else if s[k] in seps then k
    else FirstSepFrom(s, seps, k + 1)
  }

  /** The non-empty pieces of `s` between separators, in order. */
  function Segments(s: string, seps: set<char>): (r: seq<string>)
    ensures forall k :: 0 <= k < |r| ==> r[k] != [] && SepFree(r[k], seps)
    decreases |s|
  {
    var i := FirstSep(s, seps);
    var head := if i == 0 then [] else [s[..i]];
    if i == |s| then head else head + Segments(s[i + 1..], seps)
  }

  /** `slice.join(sep)`. */
  function Join(parts: seq<string>, sep: string): string {
    if |parts| == 0 then []
    else if |parts| == 1 then parts[0]
    else parts[0] + sep + Join(parts[1..], sep)
  }

  predicate Clean(parts: seq<string>, seps: set<char>) {
    forall k :: 0 <= k < |parts| ==> parts[k] != [] && SepFree(parts[k], seps)
  }

  /** `FirstSep` is pinned down by its ensures: the first separator position. */
  lemma FirstSepAt(s: string, i: nat, seps: set<char>)
    requires i <= |s| && SepFree(s[..i], seps)
    requires i == |s| || s[i] in seps
    ensures FirstSep(s, seps) == i
  {
  }

  lemma FirstSepOfSepFree(w: string, rest: string, seps: set<char>)
    requires SepFree(w, seps)
    requires rest == [] || rest[0] in seps
    ensures FirstSep(w + rest, seps) == |w|
  {
    assert (w + rest)[..|w|] == w;
    FirstSepAt(w + rest, |w|, seps);
  }

  /** Splitting a joined sequence of clean segments gives the segments back. */
  lemma {:induction false} SegmentsOfJoin(parts: seq<string>, c: char, seps: set<char>)
    requires c in seps
    requires Clean(parts, seps)
    ensures Segments(Join(parts, [c]), seps) == parts
    decreases |parts|
  {
    if |parts| == 0 {
    } else if |parts| == 1 {
      FirstSepOfSepFree(parts[0], [], seps);
      assert parts[0] + [] == parts[0];
    } else {
      var rest := Join(parts[1..], [c]);
      var s := parts[0] + [c] + rest;
      assert s == parts[0] + ([c] + rest);
      FirstSepOfSepFree(parts[0], [c] + rest, seps);
      assert s[..|parts[0]|] == parts[0];
      assert s[|parts[0]| + 1..] == rest;
      SegmentsOfJoin(parts[1..], c, seps);
      assert [parts[0]] + parts[1..] == parts;
    }
  }

  /** A separator splits a string into the segments of either side. */
  lemma {:induction false} SegmentsOfConcat(a: string, c: char, b: string, seps: set<char>)
    requires c in seps
    ensures Segments(a + [c] + b, seps) == Segments(a, seps) + Segments(b, seps)
    decreases |a|
  {
    var s := a + [c] + b;
    var i := FirstSep(a, seps);
    if i == |a| {
      assert a[..i] == a;
      FirstSepOfSepFree(a, [c] + b, seps);
      assert s == a + ([c] + b);
      assert s[..i] == a;
      assert s[i + 1..] == b;
    } else {
      assert s[..i] == a[..i];
      FirstSepAt(s, i, seps);
      assert s[i + 1..] == a[i + 1..] + [c] + b;
      SegmentsOfConcat(a[i + 1..], c, b, seps);
    }
  }

  // ---------------------------------------------------------------------------
  // Whitespace and `str::trim` (the Unicode White_Space property)

  predicate IsWhitespace(c: char) {
    || ('\U{0009}' <= c <= '\U{000D}') || c == ' ' || c == '\U{0085}' || c == '\U{00A0}'
    || c == '\U{1680}' || ('\U{2000}' <= c <= '\U{200A}') || c == '\U{2028}' || c == '\U{2029}'
    || c == '\U{202F}' || c == '\U{205F}' || c == '\U{3000}'
  }

  /** Index of the first non-whitespace character at or after `k`. */
  function SkipWhitespace(s: string, k: nat): (i: nat)
    requires k <= |s|
    ensures k <= i <= |s|
    ensures forall j :: k <= j < i ==> IsWhitespace(s[j])
    ensures i < |s| ==> !IsWhitespace(s[i])
    decreases |s| - k
  {
    if k == |s| || !IsWhitespace(s[k]) then k else SkipWhitespace(s, k + 1)
  }

  /** One past the last non-whitespace character before `k`. */
  function SkipWhitespaceBack(s: string, k: nat): (i: nat)
    requires k <= |s|
    ensures i <= k
    ensures forall j :: i <= j < k ==> IsWhitespace(s[j])
    ensures i > 0 ==> !IsWhitespace(s[i - 1])
  {
    if k == 0 || !IsWhitespace(s[k - 1]) then k else SkipWhitespaceBack(s, k - 1)
  }

  /** `trim_start`: the suffix left after leading whitespace. */
  function TrimStart(s: string): (r: string)
    ensures |r| <= |s|
    ensures r == [] || !IsWhitespace(r[0])
  {
    var k := SkipWhitespace(s, 0);
    if k == 0 then s else s[k..]
  }

  /** `trim_end`: the prefix left before trailing whitespace. */
  function TrimEnd(s: string): (r: string)
    ensures |r| <= |s|
    ensures r == [] || !IsWhitespace(r[|r| - 1])
  {
    var k := SkipWhitespaceBack(s, |s|);
    if k == |s| then s else s[..k]
  }

  /** `trim_start` removes a prefix made only of whitespace. */
  lemma TrimStartRemovesWhitespace(s: string)
    ensures TrimStart(s) == s[|s| - |TrimStart(s)|..]
    ensures forall i :: 0 <= i < |s| - |TrimStart(s)| ==> IsWhitespace(s[i])
  {
  }

  /** `trim_end` removes a suffix made only of whitespace. */
  lemma TrimEndRemovesWhitespace(s: string)
    ensures TrimEnd(s) == s[..|TrimEnd(s)|]
    ensures forall i :: |TrimEnd(s)| <= i < |s| ==> IsWhitespace(s[i])
  {
  }

  /** `str::trim`: the longest infix with no whitespace at either end. */
  function Trim(s: string): (r: string)
    ensures r == [] || (!IsWhitespace(r[0]) && !IsWhitespace(r[|r| - 1]))
  {
    TrimEnd(TrimStart(s))
  }

  lemma TrimStartNoop(s: string)
    requires s == [] || !IsWhitespace(s[0])
    ensures TrimStart(s) == s
  {
  }

  lemma TrimEndNoop(s: string)
    requires s == [] || !IsWhitespace(s[|s| - 1])
    ensures TrimEnd(s) == s
  {
  }

  lemma TrimNoop(s: string)
    requires s == [] || (!IsWhitespace(s[0]) && !IsWhitespace(s[|s| - 1]))
    ensures Trim(s) == s
  {
    TrimStartNoop(s);
    TrimEndNoop(s);
  }

  /** Trimming twice changes nothing more than trimming once. */
  lemma TrimIdempotent(s: string)
    ensures Trim(Trim(s)) == Trim(s)
  {
    var t := Trim(s);
    TrimStartNoop(t);
    TrimEndNoop(t);
  }

  // ---------------------------------------------------------------------------
  // UTF-8 length (`str::len` counts bytes)

  function Utf8Width(c: char): nat {
    if c as int < 0x80 then 1
    else if c as int < 0x800 then 2
    else if c as int < 0x10000 then 3
    else 4
  }

  function Utf8Len(s: string): (n: nat)
    ensures |s| <= n <= 4 * |s|
  {
    if |s| == 0 then 0 else Utf8Len(s[..|s| - 1]) + Utf8Width(s[|s| - 1])
  }

  /** ASCII text takes one byte per character. */
  lemma {:induction false} Utf8LenAscii(s: string)
    requires forall i :: 0 <= i < |s| ==> s[i] as int < 0x80
    ensures Utf8Len(s) == |s|
  {
    if |s| > 0 {
      Utf8LenAscii(s[..|s| - 1]);
    }
  }

  // ---------------------------------------------------------------------------
  // Decimal rendering (`format!("{}", n)`) and `str::parse::<u64>()`

  const U64_LIMIT: nat := 0x1_0000_0000_0000_0000

  predicate IsDigit(c: char) {
    '0' <= c <= '9'
  }

  predicate AllDigits(s: string) {
    forall i :: 0 <= i < |s| ==> IsDigit(s[i])
  }

  function DigitChar(d: nat): (c: char)
    requires d < 10
    ensures IsDigit(c) && c as int - '0' as int == d
  {
    ('0' as int + d) as char
  }

  /** The value of a string of decimal digits, most significant first. */
  function DigitsValue(s: string): nat
    requires AllDigits(s)
  {
    if |s| == 0 then 0
    else DigitsValue(s[..|s| - 1]) * 10 + (s[|s| - 1] as int - '0' as int)
  }

  /** `n` in decimal with no leading zeros. */
  function Decimal(n: nat): (r: string)
    ensures |r| > 0 && AllDigits(r)
  {
    if n < 10 then [DigitChar(n)] else Decimal(n / 10) + [DigitChar(n % 10)]
  }

  /** `u64::from_str`: an optional '+', then at least one ASCII digit, and a value
      below 2^64; anything else is a parse error. */
  function ParseU64(s: string): (r: Option<nat>)
    ensures r.Some? ==> r.value < U64_LIMIT
  {
    var body := if |s| > 0 && s[0] == '+' then s[1..] else s;
    if |body| == 0 || !AllDigits(body) then None
    else
      var v := DigitsValue(body);
      if v < U64_LIMIT then Some(v) else None
  }

  lemma {:induction false} DigitsValueOfDecimal(n: nat)
    ensures DigitsValue(Decimal(n)) == n
  {
    var r := Decimal(n);
    if n < 10 {
      assert r[..0] == [];
    } else {
      assert r[..|r| - 1] == Decimal(n / 10);
      DigitsValueOfDecimal(n / 10);
    }
  }

  /** Rendering a `u64` in decimal and parsing it back gives the number. */
  lemma ParseDecimal(n: nat)
    requires n < U64_LIMIT
    ensures ParseU64(Decimal(n)) == Some(n)
  {
    DigitsValueOfDecimal(n);
    assert IsDigit(Decimal(n)[0]);
  }
}
