/**
 * The PHP and Laravel string primitives the core relies on: `explode`,
 * `implode`, `Str::startsWith`, `Str::after`, the `(int)` cast of a string
 * and the `(string)` cast of an int.
 */
module PhpStrings {
  import opened Wrappers

  /** `explode($d, $s)` for a one-character delimiter: the maximal d-free segments of s, in order. */
  function Explode(s: string, d: char): (parts: seq<string>)
    ensures |parts| >= 1
    ensures forall i :: 0 <= i < |parts| ==> d !in parts[i]
    decreases |s|
  {
    if |s| == 0 then [""]
    else
      var rest := Explode(s[1..], d);
      if s[0] == d then [""] + rest
      else [[s[0]] + rest[0]] + rest[1..]
  }

  /** `implode($d, $parts)`. */
  function Implode(parts: seq<string>, d: char): string
    decreases |parts|
  {
    if |parts| == 0 then ""
    else if |parts| == 1 then parts[0]
    else parts[0] + [d] + Implode(parts[1..], d)
  }

  /** Joining the segments of `explode` with the same delimiter gives back the original text. */
  lemma {:induction false} ExplodeImplode(s: string, d: char)
    ensures Implode(Explode(s, d), d) == s
    decreases |s|
  {
    if |s| > 0 {
      var rest := Explode(s[1..], d);
      ExplodeImplode(s[1..], d);
      if s[0] == d {
        assert Explode(s, d)[1..] == rest;
        assert s == [d] + s[1..];
      } else if |rest| == 1 {
        assert s == [s[0]] + s[1..];
      } else {
        var parts := Explode(s, d);
        assert parts[1..] == rest[1..];
        assert Implode(rest, d) == rest[0] + [d] + Implode(rest[1..], d);
        assert s == [s[0]] + s[1..];
      }
    }
  }

  /** A text without the delimiter explodes to itself alone. */
  lemma {:induction false} ExplodeWithoutDelimiter(p: string, d: char)
    requires d !in p
    ensures Explode(p, d) == [p]
    decreases |p|
  {
    if |p| > 0 {
      ExplodeWithoutDelimiter(p[1..], d);
      assert [p[0]] + p[1..] == p;
    }
  }

  /** A leading d-free segment followed by the delimiter becomes the first part. */
  lemma {:induction false} ExplodeAfterSegment(p: string, t: string, d: char)
    requires d !in p
    ensures Explode(p + [d] + t, d) == [p] + Explode(t, d)
    decreases |p|
  {
    var s := p + [d] + t;
    if |p| == 0 {
      assert s[1..] == t;
    } else {
      assert s[1..] == p[1..] + [d] + t;
      ExplodeAfterSegment(p[1..], t, d);
      assert [p[0]] + p[1..] == p;
    }
  }

  /** Exploding a join of d-free segments gives back the segments. */
  lemma {:induction false} ImplodeExplode(parts: seq<string>, d: char)
    requires |parts| >= 1
    requires forall i :: 0 <= i < |parts| ==> d !in parts[i]
    ensures Explode(Implode(parts, d), d) == parts
    decreases |parts|
  {
    if |parts| == 1 {
      ExplodeWithoutDelimiter(parts[0], d);
    } else {
      ImplodeExplode(parts[1..], d);
      ExplodeAfterSegment(parts[0], Implode(parts[1..], d), d);
      assert [parts[0]] + parts[1..] == parts;
    }
  }

  /** A text containing the delimiter is its first segment, the delimiter, and the rest joined back. */
  lemma ExplodeSplitsAtFirst(s: string, d: char)
    requires d in s
    ensures |Explode(s, d)| >= 2
    ensures s == Explode(s, d)[0] + [d] + Implode(Explode(s, d)[1..], d)
  {
    var parts := Explode(s, d);
    ExplodeImplode(s, d);
  }

  /** The text in front of the first d, or all of s when d does not occur. */
  function TakeUntil(s: string, d: char): (p: string)
    ensures |p| <= |s| && p == s[..|p|] && d !in p
    ensures |p| < |s| ==> s[|p|] == d
    decreases |s|
  {
    if |s| == 0 || s[0] == d then "" else [s[0]] + TakeUntil(s[1..], d)
  }

  /** TakeUntil finds a d-free segment written in front of a d. */
  lemma TakeUntilSegment(p: string, t: string, d: char)
    requires d !in p
    ensures TakeUntil(p + [d] + t, d) == p
  {
    var s := p + [d] + t;
    assert s[|p|] == d;
  }

  /** The first part of `explode` is the text before the first delimiter; the rest explode the text after it. */
  lemma {:induction false} ExplodeHead(s: string, d: char)
    ensures Explode(s, d)[0] == TakeUntil(s, d)
    ensures d in s ==> |Explode(s, d)| >= 2 && Explode(s, d)[1..] == Explode(s[|TakeUntil(s, d)| + 1..], d)
    decreases |s|
  {
    if |s| > 0 && s[0] != d {
      ExplodeHead(s[1..], d);
      if d in s {
        assert d in s[1..] by {
          var k :| 0 <= k < |s| && s[k] == d;
          assert s[1..][k - 1] == d;
        }
        assert s[|TakeUntil(s, d)| + 1..] == s[1..][|TakeUntil(s[1..], d)| + 1..];
      }
    }
  }

  /** With a delimiter present, the first two parts of `explode` are the texts before the first and the second delimiter. */
  lemma ExplodeFirstTwo(s: string, d: char)
    requires d in s
    ensures |Explode(s, d)| >= 2
    ensures Explode(s, d)[0] == TakeUntil(s, d)
    ensures Explode(s, d)[1] == TakeUntil(s[|TakeUntil(s, d)| + 1..], d)
  {
    ExplodeHead(s, d);
    var rest := s[|TakeUntil(s, d)| + 1..];
    ExplodeHead(rest, d);
    assert Explode(s, d)[1] == Explode(s, d)[1..][0];
  }

  /** `Str::startsWith($haystack, $needle)` for one needle; an empty needle never matches. */
  predicate StartsWith(haystack: string, needle: string) {
    needle != "" && |needle| <= |haystack| && haystack[..|needle|] == needle
  }

  /** p occurs in s at position j. */
  predicate OccursAt(s: string, p: string, j: int) {
    0 <= j && j + |p| <= |s| && s[j..j + |p|] == p
  }

  /** The first position at or after `from` where p occurs in s. */
  function IndexOf(s: string, p: string, from: nat): (r: Option<nat>)
    requires from <= |s|
    ensures r.Some? ==> from <= r.value && OccursAt(s, p, r.value)
    ensures r.Some? ==> forall j :: from <= j < r.value ==> !OccursAt(s, p, j)
    ensures r.None? ==> forall j :: from <= j ==> !OccursAt(s, p, j)
    decreases |s| - from
  {
    if OccursAt(s, p, from) then Some(from)
    else if from == |s| then None
    else IndexOf(s, p, from + 1)
  }

  /** `Str::after($subject, $search)`: the text after the first occurrence, or the whole subject. */
  function After(s: string, search: string): (r: string)
    ensures search == "" ==> r == s
    ensures StartsWith(s, search) ==> r == s[|search|..]
    ensures search != "" && (forall j :: 0 <= j ==> !OccursAt(s, search, j)) ==> r == s
  {
    if search == "" then s
    else
      match IndexOf(s, search, 0)
      case None => s
      case Some(i) =>
        assert StartsWith(s, search) ==> OccursAt(s, search, 0);
        s[i + |search|..]
  }

  predicate IsDigit(c: char) {
    '0' <= c <= '9'
  }

  predicate AllDigits(s: string) {
    forall i :: 0 <= i < |s| ==> IsDigit(s[i])
  }

  function DigitChar(n: nat): (c: char)
    requires n < 10
    ensures IsDigit(c)
  {
    ('0' as int + n) as char
  }

  /** The decimal value of a string of digits. */
  function DigitsValue(ds: string): nat
    requires AllDigits(ds)
    decreases |ds|
  {
    if |ds| == 0 then 0
    else DigitsValue(ds[..|ds| - 1]) * 10 + (ds[|ds| - 1] as int - '0' as int)
  }

  /** `(string) $n` for a non-negative int: its decimal digits without leading zeros. */
  function NatToString(n: nat): (s: string)
    ensures |s| >= 1 && AllDigits(s)
    ensures DigitsValue(s) == n
    ensures s[0] == '0' ==> n == 0
    decreases n
  {
    if n < 10 then [DigitChar(n)]
    else
      var prefix := NatToString(n / 10);
      var s := prefix + [DigitChar(n % 10)];
      assert s[..|s| - 1] == prefix;
      s
  }

  /** `(string) $i` for any int. */
  function IntToString(i: int): (s: string)
    ensures i >= 0 ==> s == NatToString(i)
    ensures i < 0 ==> s == "-" + NatToString(-i)
  {
    if i < 0 then "-" + NatToString(-i) else NatToString(i)
  }

  /** PHP_INT_MAX and PHP_INT_MIN on the 64-bit platforms the panel runs on. */
  const PhpIntMax: int := 0x7FFF_FFFF_FFFF_FFFF
  const PhpIntMin: int := -0x8000_0000_0000_0000

  /** The whitespace PHP skips in front of a numeric string. */
  predicate IsNumericSpace(c: char) {
    c == ' ' || c == '\t' || c == '\n' || c == '\r' || c == 11 as char || c == 12 as char
  }

  function SkipSpace(s: string): (t: string)
    ensures |t| <= |s| && t == s[|s| - |t|..]
    ensures |t| > 0 ==> !IsNumericSpace(t[0])
    ensures |s| > 0 && !IsNumericSpace(s[0]) ==> t == s
    decreases |s|
  {
    if |s| > 0 && IsNumericSpace(s[0]) then SkipSpace(s[1..]) else s
  }

  /** The longest prefix of s made of decimal digits. */
  function LeadingDigits(s: string): (ds: string)
    ensures |ds| <= |s| && ds == s[..|ds|] && AllDigits(ds)
    ensures |ds| < |s| ==> !IsDigit(s[|ds|])
    decreases |s|
  {
    if |s| > 0 && IsDigit(s[0]) then [s[0]] + LeadingDigits(s[1..]) else ""
  }

  /** A magnitude read from digits, saturated into the platform's int range with the given sign. */
  function Saturate(magnitude: nat, negative: bool): (n: int)
    ensures PhpIntMin <= n <= PhpIntMax
    ensures !negative && magnitude <= PhpIntMax ==> n == magnitude
    ensures negative && magnitude <= -PhpIntMin ==> n == -(magnitude as int)
  {
    if negative then (if magnitude > -PhpIntMin then PhpIntMin else -(magnitude as int))
    else (if magnitude > PhpIntMax then PhpIntMax else magnitude)
  }

  /**
   * `(int) $s`: leading whitespace is skipped, then an optional sign and the
   * leading decimal digits are read; a text with no leading digits is 0.
   * Out-of-range magnitudes saturate, as PHP's cast of an overflowing numeric string does.
   */
  function IntCast(s: string): (n: int)
    ensures PhpIntMin <= n <= PhpIntMax
  {
    var t := SkipSpace(s);
    if |t| > 0 && (t[0] == '-' || t[0] == '+') then
      Saturate(DigitsValue(LeadingDigits(t[1..])), t[0] == '-')
    else
      Saturate(DigitsValue(LeadingDigits(t)), false)
  }

  /** The `(int)` cast reads back what the `(string)` cast of a non-negative int wrote. */
  lemma CastOfNatToString(n: nat)
    requires n <= PhpIntMax
    ensures IntCast(NatToString(n)) == n
  {
    CastOfDigits(NatToString(n));
  }

  /** A non-empty text of digits casts to its decimal value, when that fits. */
  lemma CastOfDigits(s: string)
    requires |s| >= 1 && AllDigits(s) && DigitsValue(s) <= PhpIntMax
    ensures IntCast(s) == DigitsValue(s)
  {
    assert IsDigit(s[0]);
    CastOfUnsigned(s);
    LeadingDigitsOfDigits(s);
  }

  /** A text that starts with a non-space non-sign character casts to the value of its leading digits. */
  lemma CastOfUnsigned(s: string)
    requires |s| >= 1 && !IsNumericSpace(s[0]) && s[0] != '-' && s[0] != '+'
    ensures IntCast(s) == Saturate(DigitsValue(LeadingDigits(s)), false)
  {
    assert SkipSpace(s) == s;
  }

  /** A text of digits is its own leading-digit run. */
  lemma {:induction false} LeadingDigitsOfDigits(s: string)
    requires AllDigits(s)
    ensures LeadingDigits(s) == s
    decreases |s|
  {
    if |s| > 0 {
      assert AllDigits(s[1..]) by {
        assert forall i :: 0 <= i < |s[1..]| ==> s[1..][i] == s[i + 1];
      }
      LeadingDigitsOfDigits(s[1..]);
    }
  }

  /** A text that starts with neither whitespace, a sign nor a digit casts to 0. */
  lemma CastWithoutDigits(s: string)
    requires |s| == 0 || (!IsNumericSpace(s[0]) && !IsDigit(s[0]) && s[0] != '-' && s[0] != '+')
    ensures IntCast(s) == 0
  {
  }
}
