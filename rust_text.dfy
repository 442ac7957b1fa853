/**
 * The pieces of Rust's `str`/`String` and integer formatting that the
 * authentication code relies on: `starts_with`, `trim_start_matches`,
 * `u64::to_string`, `str::parse::<u64>` and `String::len` (a count of UTF-8
 * bytes, not of characters).
 */
module RustText {
  import opened Wrappers

  /** 2^64: every `u64` is below it. */
  const U64_LIMIT: nat := 0x1_0000_0000_0000_0000

  /** `s.starts_with(prefix)`. */
  predicate StartsWith(s: string, prefix: string) {
    |prefix| <= |s| && s[..|prefix|] == prefix
  }

  /** `pat` written `k` times in a row. */
  function Repeat(pat: string, k: nat): (r: string)
    ensures |r| == k * |pat|
  {
    if k == 0 then [] else pat + Repeat(pat, k - 1)
  }

  /**
   * `s.trim_start_matches(pat)`: strips `pat` from the front as long as `s`
   * still starts with it, so every leading repetition goes; an empty pattern
   * strips nothing.
   */
  function TrimStartMatches(s: string, pat: string): (r: string)
    ensures |r| <= |s| && r == s[|s| - |r|..]
    ensures pat != [] ==> !StartsWith(r, pat)
    decreases |s|
  {
    if pat != [] && StartsWith(s, pat) then
      var rest := TrimStartMatches(s[|pat|..], pat);
      assert s[|pat|..][|s[|pat|..]| - |rest|..] == s[|s| - |rest|..];
      rest
    else
      s
  }

  /** Stripping removes exactly the leading repetitions of the pattern, however many there are. */
  lemma {:induction false} TrimStartMatchesRepeat(pat: string, k: nat, t: string)
    requires pat != [] && !StartsWith(t, pat)
    ensures TrimStartMatches(Repeat(pat, k) + t, pat) == t
  {
    if k == 0 {
      assert Repeat(pat, k) + t == t;
    } else {
      var rest := Repeat(pat, k - 1) + t;
      assert Repeat(pat, k) + t == pat + rest;
      PrefixThenRest(pat, rest);
      TrimStartMatchesRepeat(pat, k - 1, t);
    }
  }

  /** `pat + x` starts with `pat`, and what follows it is `x`. */
  lemma PrefixThenRest(pat: string, x: string)
    ensures StartsWith(pat + x, pat) && (pat + x)[|pat|..] == x
  {
    assert (pat + x)[..|pat|] == pat;
  }

  predicate IsDigit(c: char) {
    '0' <= c <= '9'
  }

  predicate AllDigits(s: string) {
    forall i :: 0 <= i < |s| ==> IsDigit(s[i])
  }

  function DigitValue(c: char): (d: nat)
    requires IsDigit(c)
    ensures d < 10
  {
    (c as int) - ('0' as int)
  }

  function DigitChar(d: nat): (c: char)
    requires d < 10
    ensures IsDigit(c) && DigitValue(c) == d
  {
    (('0' as int) + d) as char
  }

  /** The number a string of decimal digits denotes (most significant first). */
  function DigitsValue(s: string): nat
    requires AllDigits(s)
  {
    if s == [] then 0 else DigitsValue(s[..|s| - 1]) * 10 + DigitValue(s[|s| - 1])
  }

  /** `n.to_string()` for an unsigned integer: its decimal digits, no sign and no leading zero. */
  function ToDecimal(n: nat): (r: string)
    ensures r != [] && AllDigits(r)
    ensures DigitsValue(r) == n
    ensures |r| > 1 ==> r[0] != '0'
  {
    if n < 10 then
      [DigitChar(n)]
    else
      var prefix := ToDecimal(n / 10);
      var r := prefix + [DigitChar(n % 10)];
      assert r[..|r| - 1] == prefix;
      r
  }

  /** The digits `s.parse::<u64>()` reads: one leading '+' is allowed, '-' is not. */
  function U64Digits(s: string): string {
    if |s| > 0 && s[0] == '+' then s[1..] else s
  }

  /**
   * `s.parse::<u64>()`: at least one ASCII digit after an optional '+', and
   * a value that fits in 64 bits; anything else is an error (`None`).
   */
  function ParseU64(s: string): (r: Option<nat>)
    ensures r.Some? ==> r.value < U64_LIMIT
    ensures r.Some? ==> s != [] && s != "+"
    ensures r.Some? ==> AllDigits(U64Digits(s)) && DigitsValue(U64Digits(s)) == r.value
    ensures (|U64Digits(s)| > 0 && AllDigits(U64Digits(s)) && DigitsValue(U64Digits(s)) < U64_LIMIT) ==>
      r == Some(DigitsValue(U64Digits(s)))
  {
    var digits := U64Digits(s);
    if |digits| > 0 && AllDigits(digits) && DigitsValue(digits) < U64_LIMIT then
      Some(DigitsValue(digits))
    else
      None
  }

  /** Parsing what `to_string` printed gives the number back, for every `u64`. */
  lemma ParseU64ToDecimal(n: nat)
    requires n < U64_LIMIT
    ensures ParseU64(ToDecimal(n)) == Some(n)
  {
    var r := ToDecimal(n);
    assert IsDigit(r[0]);
    assert U64Digits(r) == r;
  }

  /** A negative number, an empty string, a lone '+' or a non-digit never parses as a `u64`. */
  lemma ParseU64Rejects(s: string)
    requires s == [] || s == "+" || s[0] == '-' || !AllDigits(U64Digits(s))
    ensures ParseU64(s) == None
  {
    if s != [] && s != "+" && s[0] == '-' {
      assert U64Digits(s) == s && !IsDigit(s[0]);
    }
  }

  /** How many bytes UTF-8 needs for one character. */
  function Utf8Width(c: char): (w: nat)
    ensures 1 <= w <= 4
  {
    if c as int < 0x80 then 1
    else if c as int < 0x800 then 2
    else if c as int < 0x1_0000 then 3
    else 4
  }

  /** `s.len()` of a Rust `String`: the number of bytes of its UTF-8 encoding. */
  function Utf8Length(s: string): (n: nat)
    ensures |s| <= n <= 4 * |s|
    ensures n == 0 <==> s == []
    ensures (forall i :: 0 <= i < |s| ==> s[i] as int < 0x80) ==> n == |s|
  {
    if s == [] then 0 else Utf8Width(s[0]) + Utf8Length(s[1..])
  }

  /** The byte length of a concatenation is the sum of the byte lengths. */
  lemma {:induction false} Utf8LengthAppend(a: string, b: string)
    ensures Utf8Length(a + b) == Utf8Length(a) + Utf8Length(b)
  {
    if a == [] {
      assert a + b == b;
    } else {
      assert (a + b)[0] == a[0];
      assert (a + b)[1..] == a[1..] + b;
      Utf8LengthAppend(a[1..], b);
    }
  }
}
