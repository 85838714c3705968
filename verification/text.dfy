/** String helpers with the meaning the Rust standard library gives them:
    ASCII lower-casing, `char::is_whitespace`, `trim_start`, `starts_with`,
    `ends_with`, decimal `to_string`, `join`, and `str::lines`. */
module Text {

  import opened Outcomes

  // ---------------------------------------------------------------------------
  // Lower-casing

  function LowerChar(c: char): char {
    if 'A' <= c <= 'Z' then (c as int + 32) as char else c
  }

  /** `str::to_lowercase`, restricted to ASCII letters. */
  function Lower(s: string): (r: string)
    ensures |r| == |s|
    ensures forall i :: 0 <= i < |s| ==> r[i] == LowerChar(s[i])
  {
    seq(|s|, i requires 0 <= i < |s| => LowerChar(s[i]))
  }

  // ---------------------------------------------------------------------------
  // Whitespace, prefixes and suffixes

  /** Rust's `char::is_whitespace`: the Unicode White_Space property. */
  predicate IsWhitespace(c: char) {
    || '\U{0009}' <= c <= '\U{000D}'
    || c == ' '
    || c == '\U{0085}'
    || c == '\U{00A0}'
    || c == '\U{1680}'
    || '\U{2000}' <= c <= '\U{200A}'
    || c == '\U{2028}'
    || c == '\U{2029}'
    || c == '\U{202F}'
    || c == '\U{205F}'
    || c == '\U{3000}'
  }

  /** `str::trim_start`: the longest suffix of `s` that does not begin with
      whitespace. */
  function TrimStart(s: string): (r: string)
    ensures |r| <= |s| && r == s[|s| - |r|..]
    ensures forall i :: 0 <= i < |s| - |r| ==> IsWhitespace(s[i])
    ensures r == [] || !IsWhitespace(r[0])
  {
    if |s| > 0 && IsWhitespace(s[0]) then TrimStart(s[1..]) else s
  }

  predicate StartsWith(s: string, prefix: string) {
    |prefix| <= |s| && s[..|prefix|] == prefix
  }

  predicate EndsWith(s: string, suffix: string) {
    |suffix| <= |s| && s[|s| - |suffix|..] == suffix
  }

  // ---------------------------------------------------------------------------
  // Decimal numerals

  predicate IsDigit(c: char) {
    '0' <= c <= '9'
  }

  predicate IsDigits(s: string) {
    forall i :: 0 <= i < |s| ==> IsDigit(s[i])
  }

  function DigitChar(d: nat): (c: char)
    requires d < 10
    ensures IsDigit(c)
  {
    ('0' as int + d) as char
  }

  function DigitValue(c: char): (d: nat)
    requires IsDigit(c)
    ensures d < 10 && DigitChar(d) == c
  {
    c as int - '0' as int
  }

  /** `to_string` of an unsigned integer: its decimal numeral, no sign, no
      leading zero. */
  function NatToString(n: nat): (s: string)
    ensures |s| >= 1 && IsDigits(s)
    ensures s[0] == '0' ==> n == 0
  {
    if n < 10 then [DigitChar(n)] else NatToString(n / 10) + [DigitChar(n % 10)]
  }

  /** `to_string` of a signed integer. */
  function IntToString(i: int): (s: string)
    ensures |s| >= 1
    ensures i < 0 <==> s[0] == '-'
    ensures i >= 0 ==> s == NatToString(i)
  {
    if i < 0 then "-" + NatToString(-i) else NatToString(i)
  }

  /** The value of a string of decimal digits. */
  function DigitsValue(s: string): nat
    requires IsDigits(s)
  {
    if |s| == 0 then 0 else DigitsValue(s[..|s| - 1]) * 10 + DigitValue(s[|s| - 1])
  }

  /** Reading a non-empty numeral back; `None` for anything else. */
  function ParseNat(s: string): Option<nat> {
    if |s| > 0 && IsDigits(s) then Some(DigitsValue(s)) else None
  }

  /** Rendering then reading back gives the number. */
  lemma {:induction false} NatToStringRoundTrip(n: nat)
    ensures ParseNat(NatToString(n)) == Some(n)
  {
    var s := NatToString(n);
    assert DigitValue(DigitChar(n % 10)) == n % 10;
    if n < 10 {
      assert s == [DigitChar(n)] && s[..|s| - 1] == "";
      assert DigitsValue(s) == DigitsValue("") * 10 + DigitValue(s[0]);
    } else {
      NatToStringRoundTrip(n / 10);
      assert s[..|s| - 1] == NatToString(n / 10);
    }
  }

  // ---------------------------------------------------------------------------
  // Splitting and joining

  /** `[T]::join(sep)`: the elements with `sep` between neighbours and
      nothing before the first or after the last. */
  function Join(xs: seq<string>, sep: string): string {
    if |xs| == 0 then ""
    else if |xs| == 1 then xs[0]
    else xs[0] + sep + Join(xs[1..], sep)
  }

  /** `str::split(c)`: the pieces between occurrences of `c`; there is always
      one more piece than there are occurrences. */
  function SplitOn(s: string, c: char): (r: seq<string>)
    ensures |r| >= 1
    ensures forall k :: 0 <= k < |r| ==> c !in r[k]
  {
    if |s| == 0 then [""]
    else
      var rest := SplitOn(s[1..], c);
      if s[0] == c then [""] + rest else [[s[0]] + rest[0]] + rest[1..]
  }

  lemma {:induction false} SplitOnFree(s: string, c: char)
    requires c !in s
    ensures SplitOn(s, c) == [s]
  {
    if |s| > 0 {
      SplitOnFree(s[1..], c);
      assert [s[0]] + s[1..] == s;
    }
  }

  lemma {:induction false} SplitOnFirst(x: string, c: char, t: string)
    requires c !in x
    ensures SplitOn(x + [c] + t, c) == [x] + SplitOn(t, c)
  {
    if |x| == 0 {
      assert x + [c] + t == [c] + t;
      assert ([c] + t)[1..] == t;
    } else {
      SplitOnFirst(x[1..], c, t);
      assert (x + [c] + t)[1..] == x[1..] + [c] + t;
      assert [x[0]] + x[1..] == x;
    }
  }

  /** Joining pieces free of `c` with `c` and splitting on `c` gives the
      pieces back: the count, the order and every piece are preserved. */
  lemma {:induction false} SplitJoinRoundTrip(xs: seq<string>, c: char)
    requires |xs| >= 1
    requires forall k :: 0 <= k < |xs| ==> c !in xs[k]
    ensures SplitOn(Join(xs, [c]), c) == xs
  {
    if |xs| == 1 {
      SplitOnFree(xs[0], c);
    } else {
      SplitJoinRoundTrip(xs[1..], c);
      SplitOnFirst(xs[0], c, Join(xs[1..], [c]));
      assert [xs[0]] + xs[1..] == xs;
    }
  }

  // ---------------------------------------------------------------------------
  // Rust `str::lines`

  /** Drops one carriage return ending a line that was ended by a newline. */
  function StripCr(line: string): string {
    if |line| > 0 && line[|line| - 1] == '\r' then line[..|line| - 1] else line
  }

  /** `str::lines`: the text cut at each newline; a carriage return is removed
      only right before a newline, and a final newline does not open an empty
      last line. */
  function Lines(s: string): (r: seq<string>)
    ensures forall k :: 0 <= k < |r| ==> '\n' !in r[k]
    ensures |r| == 0 <==> s == ""
  {
    var pieces := SplitOn(s, '\n');
    var last := pieces[|pieces| - 1];
    var ended := seq(|pieces| - 1, k requires 0 <= k < |pieces| - 1 => StripCr(pieces[k]));
    assert forall k :: 0 <= k < |ended| ==> '\n' !in ended[k] by {
      forall k | 0 <= k < |ended|
        ensures '\n' !in ended[k]
      {
        assert '\n' !in pieces[k];
      }
    }
    assert s == "" ==> pieces == [""];
    assert s != "" ==> |pieces| > 1 || last != "" by {
      if s != "" && |pieces| == 1 {
        SplitOnLengthOne(s, '\n');
      }
    }
    if last == "" then ended else ended + [last]
  }

  /** A text that splits into one piece is that piece. */
  lemma {:induction false} SplitOnLengthOne(s: string, c: char)
    requires |SplitOn(s, c)| == 1
    ensures SplitOn(s, c) == [s]
  {
    if |s| > 0 {
      var rest := SplitOn(s[1..], c);
      if s[0] != c {
        SplitOnLengthOne(s[1..], c);
        assert [s[0]] + s[1..] == s;
      }
    }
  }
}
