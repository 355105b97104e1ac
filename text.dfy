/**
 * Text helpers the bot relies on from Rust's standard library: parsing of
 * `u64` and `i32` with `from_str`, decimal rendering with `format!("{}")`,
 * lowercasing, substring search and `join`.
 */
module Text {
  import opened Wrappers

  /** Rust's u64. */
  type u64 = x: int | 0 <= x < 0x1_0000_0000_0000_0000

  const U64_LIMIT: int := 0x1_0000_0000_0000_0000
  const I32_MIN: int := -0x8000_0000
  const I32_MAX: int := 0x7fff_ffff

  // ---------------------------------------------------------------------------
  // Integer parsing, as `u64::from_str` and `i32::from_str` do it: an optional
  // sign, then at least one ASCII digit and nothing else, within range.
  // ---------------------------------------------------------------------------

  predicate IsDigit(c: char) { '0' <= c <= '9' }

  predicate AllDigits(s: string) { forall i :: 0 <= i < |s| ==> IsDigit(s[i]) }

  /** The value of a string of decimal digits, read left to right. */
  function DigitsValue(s: string): nat
    requires AllDigits(s)
  {
    if s == [] then 0 else DigitsValue(s[..|s| - 1]) * 10 + (s[|s| - 1] as int - '0' as int)
  }

  /** A non-empty run of digits and its value; anything else fails. */
  function ParseDigits(s: string): (r: Option<nat>)
    ensures r.Some? <==> s != [] && AllDigits(s)
    ensures r.Some? ==> r.value == DigitsValue(s)
  {
    if s != [] && AllDigits(s) then Some(DigitsValue(s)) else None
  }

  /**
   * `u64::from_str`: an optional '+' (never '-'), then one or more digits
   * whose value is below 2^64; the result is that value.
   */
  function ParseU64(s: string): (r: Option<u64>)
    ensures s == [] ==> r == None
    ensures s != [] && s[0] == '-' ==> r == None
    ensures s != [] && AllDigits(s) ==> (r.Some? <==> DigitsValue(s) < U64_LIMIT)
    ensures s != [] && s[0] == '+' ==>
      && (r.Some? <==> s[1..] != [] && AllDigits(s[1..]) && DigitsValue(s[1..]) < U64_LIMIT)
      && (r.Some? ==> r.value == DigitsValue(s[1..]))
    ensures r.Some? ==> s != [] && (AllDigits(s) || (s[0] == '+' && AllDigits(s[1..])))
    ensures r.Some? && AllDigits(s) ==> r.value == DigitsValue(s)
  {
    var digits := if s != [] && s[0] == '+' then s[1..] else s;
    match ParseDigits(digits)
    case Some(v) => if v < U64_LIMIT then Some(v) else None
    case None => None
  }

  /**
   * `i32::from_str`: an optional '+' or '-', then one or more digits whose
   * signed value lies within the 32-bit range; the result is that value.
   */
  function ParseI32(s: string): (r: Option<int>)
    ensures s == [] ==> r == None
    ensures r.Some? ==> I32_MIN <= r.value <= I32_MAX
    ensures s != [] && AllDigits(s) ==>
      && (r.Some? <==> DigitsValue(s) <= I32_MAX)
      && (r.Some? ==> r.value == DigitsValue(s))
    ensures s != [] && s[0] == '+' ==>
      && (r.Some? <==> s[1..] != [] && AllDigits(s[1..]) && DigitsValue(s[1..]) <= I32_MAX)
      && (r.Some? ==> r.value == DigitsValue(s[1..]))
    ensures s != [] && s[0] == '-' ==>
      && (r.Some? <==> s[1..] != [] && AllDigits(s[1..]) && DigitsValue(s[1..]) <= -I32_MIN)
      && (r.Some? ==> r.value == -(DigitsValue(s[1..]) as int))
    ensures r.Some? ==> s != [] && (AllDigits(s) || ((s[0] == '+' || s[0] == '-') && AllDigits(s[1..])))
  {
    if s != [] && s[0] == '-' then
      match ParseDigits(s[1..])
      case Some(v) =>
        var negated: int := -(v as int);
        if v <= -I32_MIN then Some(negated) else None
      case None => None
    else
      var digits := if s != [] && s[0] == '+' then s[1..] else s;
      match ParseDigits(digits)
      case Some(v) => if v <= I32_MAX then Some(v) else None
      case None => None
  }

  // ---------------------------------------------------------------------------
  // Decimal rendering, as `format!("{}", n)` does it.
  // ---------------------------------------------------------------------------

  function DigitChar(d: nat): char
    requires d < 10
  {
    ('0' as int + d) as char
  }

  /** The shortest decimal spelling of `n`. */
  function NatToString(n: nat): string
    decreases n
  {
    if n < 10 then [DigitChar(n)] else NatToString(n / 10) + [DigitChar(n % 10)]
  }

  /** The decimal spelling of `x`, with a leading '-' when negative. */
  function IntToString(x: int): string
  {
    if x < 0 then "-" + NatToString(-x) else NatToString(x)
  }

  lemma {:induction false} NatToStringIsDigits(n: nat)
    ensures NatToString(n) != [] && AllDigits(NatToString(n))
    ensures DigitsValue(NatToString(n)) == n
    decreases n
  {
    if n >= 10 {
      var a := NatToString(n / 10);
      NatToStringIsDigits(n / 10);
      var s := NatToString(n);
      assert s == a + [DigitChar(n % 10)];
      assert s[..|s| - 1] == a;
    }
  }

  /** Rendering an id and parsing it back as a u64 gives the id again. */
  lemma U64RoundTrip(n: u64)
    ensures ParseU64(NatToString(n)) == Some(n)
  {
    NatToStringIsDigits(n);
  }

  /** Rendering an i32 and parsing it back gives the same number. */
  lemma I32RoundTrip(x: int)
    requires I32_MIN <= x <= I32_MAX
    ensures ParseI32(IntToString(x)) == Some(x)
  {
    if x < 0 {
      NatToStringIsDigits(-x);
      assert IntToString(x)[1..] == NatToString(-x);
    } else {
      NatToStringIsDigits(x);
    }
  }

  // ---------------------------------------------------------------------------
  // Case folding and substring search.
  // ---------------------------------------------------------------------------

  /** Lowercasing of a single character; only ASCII letters change. */
  function LowerChar(c: char): (r: char)
    ensures 'A' <= c <= 'Z' ==> r as int == c as int + ('a' as int - 'A' as int)
    ensures !('A' <= c <= 'Z') ==> r == c
  {
    if 'A' <= c <= 'Z' then (c as int + 32) as char else c
  }

  /** The string with every character lowercased. */
  function Lower(s: string): (r: string)
    ensures |r| == |s|
    ensures forall i :: 0 <= i < |s| ==> r[i] == LowerChar(s[i])
  {
    if s == [] then [] else [LowerChar(s[0])] + Lower(s[1..])
  }

  /** `a` and `b` are the same string up to case. */
  predicate SameIgnoringCase(a: string, b: string)
  {
    |a| == |b| && forall i :: 0 <= i < |a| ==> LowerChar(a[i]) == LowerChar(b[i])
  }

  lemma SameIgnoringCaseIsLowerEqual(a: string, b: string)
    ensures SameIgnoringCase(a, b) <==> Lower(a) == Lower(b)
  {
    if Lower(a) == Lower(b) {
      assert forall i :: 0 <= i < |a| ==> Lower(a)[i] == Lower(b)[i];
    }
  }

  /** `needle` occurs in `hay` starting at position `i`. */
  predicate OccursAt(hay: string, needle: string, i: int)
  {
    0 <= i <= |hay| - |needle| && hay[i..i + |needle|] == needle
  }

  /** Rust's `str::contains`: `needle` occurs somewhere in `hay`. */
  predicate Contains(hay: string, needle: string)
  {
    exists i | 0 <= i <= |hay| - |needle| :: OccursAt(hay, needle, i)
  }

  // ---------------------------------------------------------------------------
  // Joining lines.
  // ---------------------------------------------------------------------------

  /** `parts.join(sep)`. */
  function Join(parts: seq<string>, sep: string): string
  {
    if parts == [] then ""
    else if |parts| == 1 then parts[0]
    else parts[0] + sep + Join(parts[1..], sep)
  }
}
