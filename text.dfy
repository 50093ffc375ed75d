/** The optional value used for Python's `None` defaults and for searches that may fail. */
module Optional {
  datatype Option<+T> = None | Some(value: T)
}

/**
 * The handful of Python string operations the quality-control core relies on:
 * `str.lower`, `str.strip`, the substring test `p in s`, `str.join`, and the
 * rendering of integers and floats inside f-strings.
 */
module Text {

  // ---------------------------------------------------------------- case

  predicate IsUpper(c: char) { 'A' <= c <= 'Z' }

  /** Lower-cases one character; only ASCII letters change. */
  function LowerChar(c: char): char
  {
    if IsUpper(c) then (c as int + 32) as char else c
  }

  /** `s.lower()`, restricted to ASCII letters. */
  function Lower(s: string): (r: string)
    ensures |r| == |s|
  {
    if s == [] then [] else [LowerChar(s[0])] + Lower(s[1..])
  }

  /** `lower` works character by character. */
  lemma {:induction false} LowerChars(s: string)
    ensures forall k {:trigger Lower(s)[k]} :: 0 <= k < |s| ==> Lower(s)[k] == LowerChar(s[k])
  {
    if s != [] {
      LowerChars(s[1..]);
      assert Lower(s) == [LowerChar(s[0])] + Lower(s[1..]);
    }
  }

  lemma LowerAppend(a: string, b: string)
    ensures Lower(a + b) == Lower(a) + Lower(b)
  {
    LowerChars(a);
    LowerChars(b);
    LowerChars(a + b);
    assert forall k :: 0 <= k < |a + b| ==> Lower(a + b)[k] == (Lower(a) + Lower(b))[k];
  }

  /** Lower-casing twice is lower-casing once. */
  lemma LowerIdempotent(s: string)
    ensures Lower(Lower(s)) == Lower(s)
  {
    LowerChars(s);
    LowerChars(Lower(s));
    forall k | 0 <= k < |s| ensures Lower(Lower(s))[k] == Lower(s)[k] {
      assert !IsUpper(LowerChar(s[k]));
    }
  }

  /** Text without upper-case letters is its own lower-case form. */
  lemma NoUpperLower(s: string)
    requires forall c | c in s :: !IsUpper(c)
    ensures Lower(s) == s
  {
    LowerChars(s);
    assert forall k :: 0 <= k < |s| ==> s[k] in s;
  }

  /** A character that nothing lower-cases to is absent from the lower-cased text. */
  lemma AbsentLower(s: string, ch: char)
    requires forall x | x in s :: LowerChar(x) != ch
    ensures ch !in Lower(s)
  {
    LowerChars(s);
    forall k | 0 <= k < |s| ensures Lower(s)[k] != ch {
      assert s[k] in s;
    }
  }

  // ---------------------------------------------------------------- whitespace

  /** The characters for which Python's `str.isspace` holds. */
  predicate IsSpace(c: char)
  {
    || '\U{0009}' <= c <= '\U{000D}'
    || '\U{001C}' <= c <= '\U{0020}'
    || c == '\U{0085}' || c == '\U{00A0}' || c == '\U{1680}'
    || '\U{2000}' <= c <= '\U{200A}'
    || c == '\U{2028}' || c == '\U{2029}' || c == '\U{202F}' || c == '\U{205F}' || c == '\U{3000}'
  }

  predicate AllSpace(s: string)
  {
    forall k :: 0 <= k < |s| ==> IsSpace(s[k])
  }

  /** Whitespace has no case. */
  lemma LowerSpaces(s: string)
    requires AllSpace(s)
    ensures Lower(s) == s
  {
    LowerChars(s);
  }

  /** How many whitespace characters `s` starts with. */
  function LeadingSpaces(s: string): (n: nat)
    ensures n <= |s|
    ensures forall k :: 0 <= k < n ==> IsSpace(s[k])
    ensures n < |s| ==> !IsSpace(s[n])
  {
    if s != [] && IsSpace(s[0]) then 1 + LeadingSpaces(s[1..]) else 0
  }

  /** How many whitespace characters `s` ends with. */
  function TrailingSpaces(s: string): (n: nat)
    ensures n <= |s|
    ensures forall k :: |s| - n <= k < |s| ==> IsSpace(s[k])
    ensures n < |s| ==> !IsSpace(s[|s| - 1 - n])
  {
    if s != [] && IsSpace(s[|s| - 1]) then 1 + TrailingSpaces(s[..|s| - 1]) else 0
  }

  /** `s.strip()`: `s` without its leading and trailing whitespace. */
  function Strip(s: string): string
  {
    var i := LeadingSpaces(s);
    if i == |s| then [] else s[i..|s| - TrailingSpaces(s)]
  }

  /**
   * `strip` is pinned down by where the text starts and ends: whitespace
   * before `i` and from `j` on, and (unless nothing is left) no whitespace at
   * either end of `s[i..j]`.
   */
  lemma StripBetween(s: string, i: nat, j: nat)
    requires i <= j <= |s|
    requires forall k :: 0 <= k < i ==> IsSpace(s[k])
    requires forall k :: j <= k < |s| ==> IsSpace(s[k])
    requires i < j ==> !IsSpace(s[i]) && !IsSpace(s[j - 1])
    ensures Strip(s) == s[i..j]
  {
    var lead, trail := LeadingSpaces(s), TrailingSpaces(s);
    if i == j {
      assert AllSpace(s) by {
        forall k | 0 <= k < |s| ensures IsSpace(s[k]) {
          if k < i {} else {}
        }
      }
      assert lead == |s|;
    } else {
      assert lead == i;
      assert trail == |s| - j;
    }
  }

  /** Whitespace around a string never changes what `strip` returns. */
  lemma StripPadding(a: string, t: string, b: string)
    requires AllSpace(a) && AllSpace(b)
    ensures Strip(a + t + b) == Strip(t)
  {
    var i, j := StripBounds(t);
    PaddedBounds(a, t, b, i, j);
    StripBetween(a + t + b, |a| + i, |a| + j);
  }

  /** Where the text of `t` starts and ends, in the terms of `StripBetween`. */
  lemma StripBounds(t: string) returns (i: nat, j: nat)
    ensures i <= j <= |t|
    ensures forall k :: 0 <= k < i ==> IsSpace(t[k])
    ensures forall k :: j <= k < |t| ==> IsSpace(t[k])
    ensures i < j ==> !IsSpace(t[i]) && !IsSpace(t[j - 1])
    ensures Strip(t) == t[i..j]
  {
    var lead := LeadingSpaces(t);
    if lead == |t| {
      i, j := |t|, |t|;
    } else {
      i, j := lead, |t| - TrailingSpaces(t);
    }
    StripBetween(t, i, j);
  }

  /** The bounds of `t[i..j]` carried over to `a + t + b` for whitespace `a` and `b`. */
  lemma PaddedBounds(a: string, t: string, b: string, i: nat, j: nat)
    requires AllSpace(a) && AllSpace(b)
    requires i <= j <= |t|
    requires forall k :: 0 <= k < i ==> IsSpace(t[k])
    requires forall k :: j <= k < |t| ==> IsSpace(t[k])
    requires i < j ==> !IsSpace(t[i]) && !IsSpace(t[j - 1])
    ensures var s := a + t + b;
            && (forall k :: 0 <= k < |a| + i ==> IsSpace(s[k]))
            && (forall k :: |a| + j <= k < |s| ==> IsSpace(s[k]))
            && (i < j ==> !IsSpace(s[|a| + i]) && !IsSpace(s[|a| + j - 1]))
            && s[|a| + i..|a| + j] == t[i..j]
  {
    var s := a + t + b;
    forall k | 0 <= k < |a| + i ensures IsSpace(s[k]) {
      if k < |a| { assert s[k] == a[k]; } else { assert s[k] == t[k - |a|]; }
    }
    forall k | |a| + j <= k < |s| ensures IsSpace(s[k]) {
      if k < |a| + |t| { assert s[k] == t[k - |a|]; } else { assert s[k] == b[k - |a| - |t|]; }
    }
    assert s[|a| + i..|a| + j] == t[i..j];
  }

  /** A string with no whitespace at either end is its own `strip`. */
  lemma StripUnpadded(s: string)
    requires s != [] && !IsSpace(s[0]) && !IsSpace(s[|s| - 1])
    ensures Strip(s) == s
  {
    StripBetween(s, 0, |s|);
  }

  /** A string made only of whitespace strips to the empty string. */
  lemma StripAllSpace(s: string)
    requires AllSpace(s)
    ensures Strip(s) == []
  {
    StripBetween(s, |s|, |s|);
  }

  // ---------------------------------------------------------------- substrings

  predicate HasAt(s: string, p: string, i: nat)
  {
    i + |p| <= |s| && s[i..i + |p|] == p
  }

  /** Python's `p in s` for strings. */
  predicate Contains(s: string, p: string)
  {
    exists i: nat | i <= |s| :: HasAt(s, p, i)
  }

  /** `s.startswith(p)` */
  predicate StartsWith(s: string, p: string)
  {
    |p| <= |s| && s[..|p|] == p
  }

  lemma StartsWithContains(s: string, p: string)
    requires StartsWith(s, p)
    ensures Contains(s, p)
  {
    assert HasAt(s, p, 0);
  }

  /** What follows `a` in `a + c` starts with `p` exactly when `c` does. */
  lemma HasAtAfter(a: string, c: string, p: string)
    ensures HasAt(a + c, p, |a|) <==> StartsWith(c, p)
  {
    if |p| <= |c| {
      assert (a + c)[|a|..|a| + |p|] == c[..|p|];
    }
  }

  /** Text found in a suffix is found in the whole. */
  lemma ContainsSuffix(a: string, c: string, p: string)
    requires Contains(c, p)
    ensures Contains(a + c, p)
  {
    var i: nat :| i <= |c| && HasAt(c, p, i);
    assert (a + c)[|a| + i..|a| + i + |p|] == c[i..i + |p|];
    var j: nat := |a| + i;
    assert j <= |a + c| && HasAt(a + c, p, j);
  }

  /** A string put between two others is found where it was put. */
  lemma Infix(a: string, b: string, c: string)
    ensures HasAt(a + b + c, b, |a|)
    ensures Contains(a + b + c, b)
  {
    assert (a + b + c)[|a|..|a| + |b|] == b;
    var i: nat := |a|;
    assert i <= |a + b + c| && HasAt(a + b + c, b, i);
  }

  /** Text lacking one of the characters of `p` cannot contain `p`. */
  lemma AbsentChar(s: string, p: string, j: nat)
    requires j < |p| && p[j] !in s
    ensures !Contains(s, p)
  {
    forall i: nat ensures !HasAt(s, p, i) {
      if i + |p| <= |s| {
        assert s[i + j] in s;
        assert s[i..i + |p|][j] == s[i + j];
      }
    }
  }

  /**
   * A middle part none of whose characters occurs in `p` separates the two
   * ends: no occurrence of `p` can straddle it.
   */
  lemma NoMatchAround(a: string, b: string, c: string, p: string)
    requires b != []
    requires forall k :: 0 <= k < |b| ==> b[k] !in p
    requires !Contains(a, p) && !Contains(c, p)
    ensures !Contains(a + b + c, p)
  {
    var s := a + b + c;
    assert |p| > 0 by {
      if |p| == 0 { assert HasAt(a, p, 0); }
    }
    forall i: nat ensures !HasAt(s, p, i) {
      if i + |p| > |s| {
      } else if i + |p| <= |a| {
        assert s[i..i + |p|] == a[i..i + |p|];
        assert !HasAt(a, p, i);
      } else if i >= |a| + |b| {
        assert s[i..i + |p|] == c[i - |a| - |b|..i - |a| - |b| + |p|];
        assert !HasAt(c, p, i - |a| - |b|);
      } else {
        // the window covers a character of b, which p lacks
        var j := if i < |a| then |a| else i;
        assert s[i..i + |p|][j - i] == s[j] == b[j - |a|];
      }
    }
  }

  /**
   * When `a` does not contain `p` and ends with a character foreign to `p`,
   * `a + c` contains `p` exactly when `c` does.
   */
  lemma ContainsAfter(a: string, c: string, p: string)
    requires a != [] && a[|a| - 1] !in p
    requires !Contains(a, p)
    ensures Contains(a + c, p) <==> Contains(c, p)
  {
    var s := a + c;
    if Contains(c, p) {
      var i: nat :| HasAt(c, p, i);
      assert HasAt(c, p, i);
      assert s[|a| + i..|a| + i + |p|] == c[i..i + |p|];
      assert HasAt(s, p, |a| + i);
    }
    forall i: nat | i < |a| ensures !HasAt(s, p, i) {
      if i + |p| > |s| {
      } else if i + |p| <= |a| {
        assert s[i..i + |p|] == a[i..i + |p|];
        assert !HasAt(a, p, i);
      } else {
        assert s[i..i + |p|][|a| - 1 - i] == s[|a| - 1] == a[|a| - 1];
      }
    }
    if Contains(s, p) {
      var i: nat :| HasAt(s, p, i);
      assert HasAt(s, p, i);
      assert s[i..i + |p|] == c[i - |a|..i - |a| + |p|];
      assert HasAt(c, p, i - |a|);
    }
  }

  // ---------------------------------------------------------------- joining

  /** `sep.join(parts)` */
  function Join(parts: seq<string>, sep: string): string
  {
    if parts == [] then ""
    else if |parts| == 1 then parts[0]
    else parts[0] + sep + Join(parts[1..], sep)
  }

  /** `c * n` for a one-character string `c`. */
  function Repeat(c: char, n: nat): (r: string)
    ensures |r| == n
    ensures forall k :: 0 <= k < n ==> r[k] == c
  {
    if n == 0 then [] else [c] + Repeat(c, n - 1)
  }

  /**
   * `s.center(width)`: `s` padded with spaces to `width`; of an odd margin the
   * extra space goes to the left when `width` is odd, to the right otherwise.
   */
  function Center(s: string, width: nat): (r: string)
    ensures |s| >= width ==> r == s
    ensures |s| < width ==> |r| == width
    ensures |s| < width ==> exists left :: 0 <= left <= width - |s| && r == Repeat(' ', left) + s + Repeat(' ', width - |s| - left)
                                           && -1 <= (width - |s| - left) - left <= 1
                                           && left == (width - |s|) / 2 + (if (width - |s|) % 2 == 1 && width % 2 == 1 then 1 else 0)
  {
    if |s| >= width then s
    else
      var margin := width - |s|;
      var left := margin / 2 + (if margin % 2 == 1 && width % 2 == 1 then 1 else 0);
      Repeat(' ', left) + s + Repeat(' ', margin - left)
  }

  // ---------------------------------------------------------------- numbers

  predicate IsDigit(c: char) { '0' <= c <= '9' }

  /** Characters that can appear in a rendered number. */
  predicate IsNumeral(c: char) { IsDigit(c) || c == '.' || c == '-' }

  function DigitChar(d: nat): (c: char)
    requires d < 10
  {
    ('0' as int + d) as char
  }

  function DigitValue(c: char): nat
    requires IsDigit(c)
  {
    c as int - '0' as int
  }

  /** The decimal rendering of a natural number, as `str(n)` gives it. */
  function NatText(n: nat): (r: string)
    ensures r != []
    ensures forall k :: 0 <= k < |r| ==> IsDigit(r[k])
  {
    if n < 10 then [DigitChar(n)] else NatText(n / 10) + [DigitChar(n % 10)]
  }

  /** Reads back a string of decimal digits. */
  function ParseNat(s: string): nat
    requires forall k :: 0 <= k < |s| ==> IsDigit(s[k])
  {
    if s == [] then 0 else ParseNat(s[..|s| - 1]) * 10 + DigitValue(s[|s| - 1])
  }

  lemma {:induction false} NatTextRoundTrip(n: nat)
    ensures ParseNat(NatText(n)) == n
  {
    if n >= 10 {
      var t := NatText(n);
      assert t[..|t| - 1] == NatText(n / 10);
      NatTextRoundTrip(n / 10);
    }
  }

  /** The decimal rendering of an integer, with a leading minus sign when negative. */
  function IntText(i: int): (r: string)
    ensures forall k :: 0 <= k < |r| ==> IsNumeral(r[k])
  {
    if i < 0 then "-" + NatText(-i) else NatText(i)
  }

  /** The number of whole tenths in the magnitude of `x`, rounded down. */
  function TruncatedTenths(x: real): (t: nat)
    ensures (t as real) <= (if x < 0.0 then -x else x) * 10.0 < (t + 1) as real
  {
    var a := if x < 0.0 then -x else x;
    (a * 10.0).Floor
  }

  /** `x` in tenths, rounded to the nearest and ties to the even neighbour. */
  function RoundedTenths(x: real): (t: nat)
    requires x >= 0.0
    ensures -0.5 <= t as real - x * 10.0 <= 0.5
    ensures t as real - x * 10.0 == 0.5 || t as real - x * 10.0 == -0.5 ==> t % 2 == 0
  {
    var t := (x * 10.0).Floor;
    var frac := x * 10.0 - t as real;
    if frac > 0.5 || (frac == 0.5 && t % 2 == 1) then t + 1 else t
  }

  /** A count of tenths written with one decimal digit. */
  function TenthsText(t: nat): (r: string)
    ensures forall k :: 0 <= k < |r| ==> IsNumeral(r[k])
  {
    NatText(t / 10) + "." + [DigitChar(t % 10)]
  }

  /**
   * Stands in for `str(x)` on a float: the sign, the integer part and the
   * first decimal digit (truncated).
   */
  function RealText(x: real): (r: string)
    ensures forall k :: 0 <= k < |r| ==> IsNumeral(r[k])
  {
    (if x < 0.0 then "-" else "") + TenthsText(TruncatedTenths(x))
  }

  /** `format(x, ".1f")`: one decimal, ties to even, on the exact value of a non-negative `x`. */
  function Fixed1(x: real): (r: string)
    requires x >= 0.0
    ensures forall k :: 0 <= k < |r| ==> IsNumeral(r[k])
  {
    TenthsText(RoundedTenths(x))
  }

  lemma TenthsDigits(n: nat, d: nat)
    requires d < 10
    ensures TenthsText(10 * n + d) == NatText(n) + "." + [DigitChar(d)]
  {
    assert (10 * n + d) / 10 == n && (10 * n + d) % 10 == d;
  }

  /** A non-negative value with a single decimal digit is rendered exactly by `RealText`. */
  lemma RealTextExact(x: real, n: nat, d: nat)
    requires d < 10 && x == n as real + d as real / 10.0
    ensures RealText(x) == NatText(n) + "." + [DigitChar(d)]
  {
    assert x * 10.0 == (10 * n + d) as real;
    assert TruncatedTenths(x) == 10 * n + d;
    TenthsDigits(n, d);
  }

  /** A value with a single decimal digit is rendered exactly by `Fixed1`. */
  lemma Fixed1Exact(x: real, n: nat, d: nat)
    requires d < 10 && x == n as real + d as real / 10.0
    ensures Fixed1(x) == NatText(n) + "." + [DigitChar(d)]
  {
    assert x * 10.0 == (10 * n + d) as real;
    assert RoundedTenths(x) == 10 * n + d;
    TenthsDigits(n, d);
  }
}
