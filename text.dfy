/**
 * Byte strings and the few pieces of Rust's `str` library the analyzer relies on:
 * UTF-8 well-formedness (`String::from_utf8`), `str::trim`, `str::starts_with`,
 * `format!("{}", n)` for an unsigned integer and `usize::from_str`.
 *
 * A Rust `String` is modelled by its UTF-8 bytes.
 */
module Text {
  import opened Wrappers

  /** One octet of a byte stream or of a UTF-8 encoded string. */
  type byte = x: int | 0 <= x < 256

  type bytes = seq<byte>

  /** The largest `usize` on a 64-bit target. */
  const UsizeMax: nat := 0xFFFF_FFFF_FFFF_FFFF

  /** The largest `isize` on a 64-bit target: no allocation may be larger. */
  const IsizeMax: nat := 0x7FFF_FFFF_FFFF_FFFF

  const CR: byte := 13
  const LF: byte := 10
  const SP: byte := 32

  predicate IsAscii(s: string) {
    forall i | 0 <= i < |s| :: s[i] as int < 128
  }

  /** The UTF-8 encoding of an ASCII string literal. */
  function Ascii(s: string): (r: bytes)
    requires IsAscii(s)
    ensures |r| == |s|
    ensures forall i | 0 <= i < |s| :: r[i] == s[i] as int
    ensures forall i | 0 <= i < |r| :: r[i] < 0x80
  {
    seq(|s|, i requires 0 <= i < |s| => s[i] as int)
  }

  predicate StartsWith(s: bytes, prefix: bytes) {
    |prefix| <= |s| && s[..|prefix|] == prefix
  }

  predicate EndsWith(s: bytes, suffix: bytes) {
    |suffix| <= |s| && s[|s| - |suffix|..] == suffix
  }

  // ---------------------------------------------------------------------------
  // UTF-8 well-formedness (Unicode Standard, Table 3-7), as checked by
  // `String::from_utf8`.

  predicate IsContinuation(b: byte) {
    0x80 <= b <= 0xBF
  }

  /**
   * Length of the well-formed UTF-8 sequence of one character at the start of `s`,
   * or 0 when `s` does not start with one.
   */
  function CharWidth(s: bytes): (w: nat)
    ensures w <= |s| && w <= 4
    ensures w != 0 ==> |s| > 0
  {
    if |s| == 0 then 0
    else if s[0] < 0x80 then 1
    else if 0xC2 <= s[0] <= 0xDF then
      if |s| >= 2 && IsContinuation(s[1]) then 2 else 0
    else if s[0] == 0xE0 then
      if |s| >= 3 && 0xA0 <= s[1] <= 0xBF && IsContinuation(s[2]) then 3 else 0
    else if 0xE1 <= s[0] <= 0xEC || 0xEE <= s[0] <= 0xEF then
      if |s| >= 3 && IsContinuation(s[1]) && IsContinuation(s[2]) then 3 else 0
    else if s[0] == 0xED then
      if |s| >= 3 && 0x80 <= s[1] <= 0x9F && IsContinuation(s[2]) then 3 else 0
    else if s[0] == 0xF0 then
      if |s| >= 4 && 0x90 <= s[1] <= 0xBF && IsContinuation(s[2]) && IsContinuation(s[3]) then 4 else 0
    else if 0xF1 <= s[0] <= 0xF3 then
      if |s| >= 4 && IsContinuation(s[1]) && IsContinuation(s[2]) && IsContinuation(s[3]) then 4 else 0
    else if s[0] == 0xF4 then
      if |s| >= 4 && 0x80 <= s[1] <= 0x8F && IsContinuation(s[2]) && IsContinuation(s[3]) then 4 else 0
    else 0
  }

  /** `s` is a sequence of well-formed UTF-8 characters. */
  predicate ValidUtf8(s: bytes)
    ensures ValidUtf8(s) && s != [] ==> !IsContinuation(s[0])
    decreases |s|
  {
    if s == [] then true
    else
      var w := CharWidth(s);
      w > 0 && ValidUtf8(s[w..])
  }

  predicate AllAsciiBytes(s: bytes) {
    forall i | 0 <= i < |s| :: s[i] < 0x80
  }

  /** Every pure-ASCII byte string is well-formed UTF-8. */
  lemma {:induction false} AsciiIsUtf8(s: bytes)
    requires AllAsciiBytes(s)
    ensures ValidUtf8(s)
    decreases |s|
  {
    if s != [] {
      assert CharWidth(s) == 1;
      assert AllAsciiBytes(s[1..]) by {
        forall i | 0 <= i < |s[1..]| ensures s[1..][i] < 0x80 {
          assert s[1..][i] == s[i + 1];
        }
      }
      AsciiIsUtf8(s[1..]);
    }
  }

  // ---------------------------------------------------------------------------
  // `str::trim`: strips characters with the Unicode White_Space property
  // (`char::is_whitespace`) from both ends.

  /** `c` is the UTF-8 encoding of one White_Space character. */
  predicate IsSpaceChar(c: bytes) {
    || (|c| == 1 && (9 <= c[0] <= 13 || c[0] == 32))
    || (|c| == 2 && c[0] == 0xC2 && (c[1] == 0x85 || c[1] == 0xA0))
    || (|c| == 3 && c[0] == 0xE1 && c[1] == 0x9A && c[2] == 0x80)
    || (|c| == 3 && c[0] == 0xE2 && c[1] == 0x80
        && (0x80 <= c[2] <= 0x8A || c[2] == 0xA8 || c[2] == 0xA9 || c[2] == 0xAF))
    || (|c| == 3 && c[0] == 0xE2 && c[1] == 0x81 && c[2] == 0x9F)
    || (|c| == 3 && c[0] == 0xE3 && c[1] == 0x80 && c[2] == 0x80)
  }

  /** Width of the White_Space character that `s` starts with, or 0. */
  function LeadingSpace(s: bytes): (w: nat)
    ensures w <= |s| && w <= 3
  {
    if |s| >= 1 && IsSpaceChar(s[..1]) then 1
    else if |s| >= 2 && IsSpaceChar(s[..2]) then 2
    else if |s| >= 3 && IsSpaceChar(s[..3]) then 3
    else 0
  }

  /** Width of the White_Space character that `s` ends with, or 0. */
  function TrailingSpace(s: bytes): (w: nat)
    ensures w <= |s| && w <= 3
  {
    if |s| >= 1 && IsSpaceChar(s[|s| - 1..]) then 1
    else if |s| >= 2 && IsSpaceChar(s[|s| - 2..]) then 2
    else if |s| >= 3 && IsSpaceChar(s[|s| - 3..]) then 3
    else 0
  }

  /** `str::trim_start`: the longest suffix of `s` that does not start with White_Space. */
  function TrimStart(s: bytes): (r: bytes)
    ensures |r| <= |s| && r == s[|s| - |r|..]
    ensures LeadingSpace(r) == 0
    decreases |s|
  {
    var w := LeadingSpace(s);
    if w == 0 then s else TrimStart(s[w..])
  }

  /** `str::trim_end`: the longest prefix of `s` that does not end with White_Space. */
  function TrimEnd(s: bytes): (r: bytes)
    ensures |r| <= |s| && r == s[..|r|]
    ensures TrailingSpace(r) == 0
    decreases |s|
  {
    var w := TrailingSpace(s);
    if w == 0 then s else TrimEnd(s[..|s| - w])
  }

  /** A prefix of a string that does not start with White_Space does not start with it either. */
  lemma PrefixKeepsNoLeadingSpace(s: bytes, m: nat)
    requires m <= |s| && LeadingSpace(s) == 0
    ensures LeadingSpace(s[..m]) == 0
  {
    if m >= 1 { assert s[..m][..1] == s[..1]; }
    if m >= 2 { assert s[..m][..2] == s[..2]; }
    if m >= 3 { assert s[..m][..3] == s[..3]; }
  }

  /** `str::trim`: `s` without its leading and trailing White_Space. */
  function Trim(s: bytes): (r: bytes)
    ensures |r| <= |s|
    ensures exists i: nat :: InfixAt(r, s, i)
    ensures LeadingSpace(r) == 0 && TrailingSpace(r) == 0
  {
    var t := TrimStart(s);
    var r := TrimEnd(t);
    PrefixKeepsNoLeadingSpace(t, |r|);
    PrefixOfSuffix(s, t, r);
    r
  }

  /** A prefix of a suffix of `s` occurs in `s`. */
  lemma PrefixOfSuffix(s: bytes, t: bytes, r: bytes)
    requires |t| <= |s| && t == s[|s| - |t|..] && |r| <= |t| && r == t[..|r|]
    ensures InfixAt(r, s, |s| - |t|)
  {
  }

  /** `r` occurs in `s` starting at index `i`. */
  predicate InfixAt(r: bytes, s: bytes, i: nat) {
    i + |r| <= |s| && s[i..i + |r|] == r
  }

  /** Trimming a string that neither starts nor ends with White_Space leaves it alone. */
  lemma TrimmedIsFixed(s: bytes)
    requires LeadingSpace(s) == 0 && TrailingSpace(s) == 0
    ensures Trim(s) == s
  {
  }

  /** Leading White_Space is dropped by `Trim`. */
  lemma {:induction false} TrimDropsLeadingSpace(w: bytes, s: bytes)
    requires IsSpaceChar(w)
    ensures Trim(w + s) == Trim(s)
  {
    assert (w + s)[..|w|] == w;
    assert LeadingSpace(w + s) == |w| by {
      if |w| > 1 {
        // a multi-byte White_Space character starts with a byte >= 0xC2,
        // so no shorter prefix is White_Space
        assert (w + s)[0] >= 0xC2;
      }
      if |w| > 2 {
        assert (w + s)[..2] == w[..2];
      }
    }
    assert (w + s)[|w|..] == s;
  }

  /** No White_Space character starts with a UTF-8 continuation byte. */
  lemma SpaceStartIsNotContinuation(w: bytes)
    requires IsSpaceChar(w)
    ensures |w| >= 1 && !IsContinuation(w[0])
  {
  }

  /**
   * Text that does not start with White_Space still does not once a White_Space
   * character is appended: the character's first byte is never a continuation byte,
   * so no White_Space character straddles the join.
   */
  lemma NoLeadingSpaceAppend(s: bytes, w: bytes)
    requires s != [] && LeadingSpace(s) == 0 && IsSpaceChar(w)
    ensures LeadingSpace(s + w) == 0
  {
    SpaceStartIsNotContinuation(w);
    var t := s + w;
    assert t[..1] == s[..1];
    if |s| >= 2 { assert t[..2] == s[..2]; } else { assert t[..2] == [s[0], w[0]]; }
    if |s| >= 3 { assert t[..3] == s[..3]; }
    else if |s| == 2 { assert t[..3] == [s[0], s[1], w[0]]; }
    else if |t| >= 3 { assert t[..3] == [s[0], w[0], t[2]]; }
  }

  /** A leading White_Space character of `s` is one of `s + w` too. */
  lemma LeadingSpaceAppend(s: bytes, w: bytes)
    requires LeadingSpace(s) > 0
    ensures LeadingSpace(s + w) == LeadingSpace(s)
  {
    var t := s + w;
    assert t[..1] == s[..1];
    if |s| >= 2 { assert t[..2] == s[..2]; }
    if |s| >= 3 { assert t[..3] == s[..3]; }
  }

  /**
   * `trim_start` of text followed by a White_Space character: the character stays
   * after the trimmed text, unless the text was all White_Space.
   */
  lemma {:induction false} TrimStartAppendSpace(s: bytes, w: bytes)
    requires IsSpaceChar(w)
    ensures TrimStart(s + w) == if TrimStart(s) == [] then [] else TrimStart(s) + w
    decreases |s|
  {
    if s == [] {
      TrimStartSpace(w);
    } else if LeadingSpace(s) == 0 {
      TrimStartNoLeading(s, w);
    } else {
      var k := TrimStartLeading(s, w);
      TrimStartAppendSpace(s[k..], w);
    }
  }

  /** A lone White_Space character is trimmed away. */
  lemma TrimStartSpace(w: bytes)
    requires IsSpaceChar(w)
    ensures TrimStart([] + w) == []
  {
    LeadingSpaceOfSpace(w, []);
    assert [] + w == w + [] == w;
    assert w[|w|..] == [];
  }

  /** Text that does not start with White_Space keeps an appended character. */
  lemma TrimStartNoLeading(s: bytes, w: bytes)
    requires s != [] && LeadingSpace(s) == 0 && IsSpaceChar(w)
    ensures TrimStart(s) == s != [] && TrimStart(s + w) == TrimStart(s) + w
  {
    NoLeadingSpaceAppend(s, w);
  }

  /** Text that starts with White_Space loses it whether or not a character follows. */
  lemma TrimStartLeading(s: bytes, w: bytes) returns (k: nat)
    requires LeadingSpace(s) > 0
    ensures k == LeadingSpace(s) && k <= |s|
    ensures TrimStart(s) == TrimStart(s[k..]) && TrimStart(s + w) == TrimStart(s[k..] + w)
  {
    k := LeadingSpace(s);
    LeadingSpaceAppend(s, w);
    assert (s + w)[k..] == s[k..] + w;
  }

  /** A White_Space character at the front is the leading White_Space. */
  lemma LeadingSpaceOfSpace(w: bytes, s: bytes)
    requires IsSpaceChar(w)
    ensures LeadingSpace(w + s) == |w|
  {
    assert (w + s)[..|w|] == w;
    if |w| > 1 {
      assert (w + s)[0] >= 0xC2;
    }
    if |w| > 2 {
      assert (w + s)[..2] == w[..2];
    }
  }

  /** A White_Space character at the back is the trailing White_Space. */
  lemma TrailingSpaceOfSpace(s: bytes, w: bytes)
    requires IsSpaceChar(w)
    ensures TrailingSpace(s + w) == |w|
  {
    var t := s + w;
    assert t[|t| - |w|..] == w;
    if |w| > 1 {
      assert t[|t| - 1..] == [w[|w| - 1]];
    }
    if |w| > 2 {
      assert t[|t| - 2..] == w[1..];
    }
  }

  /** Trailing White_Space is dropped by `Trim`. */
  lemma TrimDropsTrailingSpace(s: bytes, w: bytes)
    requires IsSpaceChar(w)
    ensures Trim(s + w) == Trim(s)
  {
    TrimStartAppendSpace(s, w);
    var t := TrimStart(s);
    if t != [] {
      TrimEndAppendSpace(t, w);
    }
  }

  /** `trim_end` drops an appended White_Space character. */
  lemma TrimEndAppendSpace(t: bytes, w: bytes)
    requires IsSpaceChar(w)
    ensures TrimEnd(t + w) == TrimEnd(t)
  {
    TrailingSpaceOfSpace(t, w);
    assert (t + w)[..|t|] == t;
  }

  /** The bytes of a run of characters, one after another. */
  function Concat(ws: seq<bytes>): bytes {
    if ws == [] then [] else ws[0] + Concat(ws[1..])
  }

  /** A run of White_Space characters before the text is dropped by `Trim`. */
  lemma TrimDropsLeadingRun(ws: seq<bytes>, s: bytes)
    requires forall i | 0 <= i < |ws| :: IsSpaceChar(ws[i])
    ensures Trim(Concat(ws) + s) == Trim(s)
  {
    forall w, t | IsSpaceChar(w) ensures Trim(w + t) == Trim(t) {
      TrimDropsLeadingSpace(w, t);
    }
    DropsLeadingRun(Trim, ws, s);
  }

  /** A run of White_Space characters after the text is dropped by `Trim`. */
  lemma TrimDropsTrailingRun(s: bytes, ws: seq<bytes>)
    requires forall i | 0 <= i < |ws| :: IsSpaceChar(ws[i])
    ensures Trim(s + Concat(ws)) == Trim(s)
  {
    forall t, w | IsSpaceChar(w) ensures Trim(t + w) == Trim(t) {
      TrimDropsTrailingSpace(t, w);
    }
    DropsTrailingRun(Trim, s, ws);
  }

  /** A map that ignores one leading White_Space character ignores a run of them. */
  lemma {:induction false} DropsLeadingRun(f: bytes -> bytes, ws: seq<bytes>, s: bytes)
    requires forall i | 0 <= i < |ws| :: IsSpaceChar(ws[i])
    requires forall w, t | IsSpaceChar(w) :: f(w + t) == f(t)
    ensures f(Concat(ws) + s) == f(s)
  {
    if ws != [] {
      var rest := Concat(ws[1..]) + s;
      DropsLeadingRun(f, ws[1..], s);
      assert Concat(ws) + s == ws[0] + rest;
      assert f(ws[0] + rest) == f(rest);
    } else {
      assert Concat(ws) + s == s;
    }
  }

  /** A map that ignores one trailing White_Space character ignores a run of them. */
  lemma {:induction false} DropsTrailingRun(f: bytes -> bytes, s: bytes, ws: seq<bytes>)
    requires forall i | 0 <= i < |ws| :: IsSpaceChar(ws[i])
    requires forall t, w | IsSpaceChar(w) :: f(t + w) == f(t)
    ensures f(s + Concat(ws)) == f(s)
    decreases |ws|
  {
    if ws != [] {
      DropsTrailingRun(f, s + ws[0], ws[1..]);
      assert s + Concat(ws) == (s + ws[0]) + Concat(ws[1..]);
      assert f(s + ws[0]) == f(s);
    } else {
      assert s + Concat(ws) == s;
    }
  }

  // ---------------------------------------------------------------------------
  // Decimal numerals: `format!("{}", n)` and `usize::from_str`.

  predicate IsDigit(b: byte) {
    48 <= b <= 57
  }

  predicate AllDigits(s: bytes) {
    forall i | 0 <= i < |s| :: IsDigit(s[i])
  }

  /** The number a string of ASCII digits denotes, most significant digit first. */
  function DigitsValue(s: bytes): nat
    requires AllDigits(s)
  {
    if s == [] then 0 else DigitsValue(s[..|s| - 1]) * 10 + (s[|s| - 1] - 48)
  }

  /** `format!("{}", n)`: the shortest decimal numeral of `n`. */
  function Decimal(n: nat): (r: bytes)
    ensures |r| >= 1 && AllDigits(r)
    ensures |r| > 1 ==> r[0] != 48
  {
    if n < 10 then [48 + n] else Decimal(n / 10) + [48 + n % 10]
  }

  /** The numeral `Decimal` writes denotes the number it was given. */
  lemma {:induction false} DecimalValue(n: nat)
    ensures DigitsValue(Decimal(n)) == n
  {
    if n >= 10 {
      DecimalValue(n / 10);
      var d := Decimal(n);
      assert d[..|d| - 1] == Decimal(n / 10);
    }
  }

  /**
   * `usize::from_str`: an optional '+' followed by at least one ASCII digit, whose
   * value fits in a `usize`. Anything else (empty, a lone '+', a '-', any other byte,
   * overflow) is an error.
   */
  function ParseUsize(s: bytes): (r: Option<nat>)
    ensures r.Some? ==> r.value <= UsizeMax
    ensures r.Some? ==> |s| > 0 && (s[0] == 43 || IsDigit(s[0]))
    ensures |s| > 0 && AllDigits(s) ==> (r.Some? <==> DigitsValue(s) <= UsizeMax)
    ensures |s| > 0 && AllDigits(s) && r.Some? ==> r.value == DigitsValue(s)
    ensures r.Some? ==> |s| > 0 && |Unsigned(s)| > 0 && AllDigits(Unsigned(s)) && r.value == DigitsValue(Unsigned(s))
    ensures |s| > 1 && s[0] == 43 && IsDigit(s[1]) ==> r == ParseUsize(s[1..])
  {
    if |s| == 0 then None
    else
      var digits := Unsigned(s);
      if |digits| == 0 || !AllDigits(digits) then None
      else if DigitsValue(digits) <= UsizeMax then Some(DigitsValue(digits))
      else None
  }

  /** `s` without a leading '+' sign, if it has one. */
  function Unsigned(s: bytes): bytes
    requires |s| > 0
  {
    if s[0] == 43 then s[1..] else s
  }

  /** Parsing a number's own numeral gives the number back, whenever it fits a `usize`. */
  lemma ParseDecimal(n: nat)
    requires n <= UsizeMax
    ensures ParseUsize(Decimal(n)) == Some(n)
  {
    DecimalValue(n);
  }

  /** A visible ASCII character, which is never White_Space. */
  predicate IsGraphic(b: byte) {
    33 <= b <= 126
  }

  /** A character that starts with a visible ASCII byte is not White_Space. */
  lemma GraphicStartIsNotSpace(c: bytes)
    requires |c| >= 1 && IsGraphic(c[0])
    ensures !IsSpaceChar(c)
  {
  }

  /** A character that ends with a visible ASCII byte is not White_Space. */
  lemma GraphicEndIsNotSpace(c: bytes)
    requires |c| >= 1 && IsGraphic(c[|c| - 1])
    ensures !IsSpaceChar(c)
  {
  }

  /** A string whose first and last bytes are visible ASCII neither starts nor ends with White_Space. */
  lemma GraphicEndsAreNotSpace(d: bytes)
    requires |d| >= 1 && IsGraphic(d[0]) && IsGraphic(d[|d| - 1])
    ensures LeadingSpace(d) == 0 && TrailingSpace(d) == 0
  {
    forall k | 1 <= k <= 3 && k <= |d| ensures !IsSpaceChar(d[..k]) {
      assert d[..k][0] == d[0];
      GraphicStartIsNotSpace(d[..k]);
    }
    forall j | 0 <= j < |d| && |d| - 3 <= j ensures !IsSpaceChar(d[j..]) {
      assert d[j..][|d| - j - 1] == d[|d| - 1];
      GraphicEndIsNotSpace(d[j..]);
    }
  }

  /** A numeral with runs of White_Space around it trims to the numeral. */
  lemma TrimSpacedDecimal(before: seq<bytes>, n: nat, after: seq<bytes>)
    requires forall i | 0 <= i < |before| :: IsSpaceChar(before[i])
    requires forall i | 0 <= i < |after| :: IsSpaceChar(after[i])
    ensures Trim(Concat(before) + Decimal(n) + Concat(after)) == Decimal(n)
  {
    var d := Decimal(n);
    TrimDropsTrailingRun(Concat(before) + d, after);
    TrimDropsLeadingRun(before, d);
    DecimalIsTrimmed(n);
    TrimmedIsFixed(d);
  }

  /** No numeral `Decimal` writes starts or ends with White_Space. */
  lemma DecimalIsTrimmed(n: nat)
    ensures LeadingSpace(Decimal(n)) == 0 && TrailingSpace(Decimal(n)) == 0
  {
    var d := Decimal(n);
    assert IsGraphic(d[0]) && IsGraphic(d[|d| - 1]);
    GraphicEndsAreNotSpace(d);
  }
}
