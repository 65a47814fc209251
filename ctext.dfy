/**
 * The pieces of the C library and of GLib that the archive backend leans on,
 * stated as functions: C strings read out of a buffer, `strtoll`/`atoll`,
 * `printf("%d")`, `g_strrstr`, character counting, and the way a shell splits
 * a command line into words.
 */
module CText {

  datatype Option<T> = None | Some(value: T)

  datatype Result<T, E> = Ok(value: T) | Err(error: E)

  /** An `unsigned char`. */
  newtype byte = x: int | 0 <= x < 256

  /** The C string terminator. */
  const NUL: char := '\0'

  // ---------------------------------------------------------------------------
  // C strings inside a buffer
  // ---------------------------------------------------------------------------

  /** Index of the first NUL at or after `i`, or `|b|` when there is none. */
  function NulIndex(b: seq<char>, i: nat): (j: nat)
    requires i <= |b|
    ensures i <= j <= |b|
    ensures j < |b| ==> b[j] == NUL
    decreases |b| - i
  {
    if i == |b| || b[i] == NUL then i else NulIndex(b, i + 1)
  }

  /** No NUL lies between `i` and the first NUL after it. */
  lemma {:induction false} NulIndexRun(b: seq<char>, i: nat)
    requires i <= |b|
    ensures forall k :: i <= k < NulIndex(b, i) ==> b[k] != NUL
    decreases |b| - i
  {
    if i < |b| && b[i] != NUL {
      NulIndexRun(b, i + 1);
    }
  }

  /** The string that a `char *` pointing at index `i` of buffer `b` denotes. */
  function CStr(b: seq<char>, i: nat): (r: string)
    requires i <= |b|
    ensures NUL !in r
    ensures i + |r| <= |b| && r == b[i..i + |r|]
    ensures i + |r| < |b| ==> b[i + |r|] == NUL
  {
    NulIndexRun(b, i);
    b[i..NulIndex(b, i)]
  }

  /** Slices of a slice are slices of the whole. */
  lemma SliceOfSlice<T>(s: seq<T>, i: nat, j: nat, k: nat)
    requires i <= j <= |s| && k <= j - i
    ensures s[i..j][..k] == s[i..i + k]
    ensures s[i..j][k..] == s[i + k..j]
  {
  }

  /** A C string runs exactly up to the next NUL. */
  lemma CStrUpTo(b: seq<char>, i: nat, j: nat)
    requires i <= j < |b| && b[j] == NUL
    requires forall k :: i <= k < j ==> b[k] != NUL
    ensures CStr(b, i) == b[i..j]
  {
    NulIndexRun(b, i);
  }

  /** A NUL written into a copy of a NUL-free text ends a C string holding
      that text's slice. */
  lemma CStrOfCopy(b: seq<char>, s: string, i: nat, j: nat)
    requires NUL !in s && i <= j <= |s| && j < |b| && b[j] == NUL
    requires forall k :: i <= k < j ==> b[k] == s[k]
    ensures CStr(b, i) == s[i..j]
  {
    forall k | i <= k < j ensures b[k] != NUL {
      assert s[k] in s;
    }
    CStrUpTo(b, i, j);
    assert b[i..j] == s[i..j];
  }

  /** A C string stops at the first NUL it meets. */
  lemma CStrBefore(b: seq<char>, i: nat, j: nat)
    requires i <= j < |b| && b[j] == NUL
    ensures i + |CStr(b, i)| <= j
  {
  }

  // ---------------------------------------------------------------------------
  // Decimal text: printf("%d") / printf("%u") of a non-negative value
  // ---------------------------------------------------------------------------

  predicate IsDecimalDigit(c: char)
  {
    '0' <= c <= '9'
  }

  function DigitChar(d: nat): (c: char)
    requires d < 10
    ensures IsDecimalDigit(c) && DigitValue(c) == d
  {
    (48 + d) as char
  }

  /** `printf("%d", n)` for `n >= 0`. */
  function FormatDecimal(n: nat): (r: string)
    ensures |r| >= 1
    ensures forall k :: 0 <= k < |r| ==> IsDecimalDigit(r[k])
    ensures r[0] == '0' <==> n == 0
    decreases n
  {
    if n < 10 then [DigitChar(n)] else FormatDecimal(n / 10) + [DigitChar(n % 10)]
  }

  // ---------------------------------------------------------------------------
  // strtoll / atoll (glibc, "C" locale)
  // ---------------------------------------------------------------------------

  const LLONG_MAX: int := 0x7FFF_FFFF_FFFF_FFFF
  const LLONG_MIN: int := -0x8000_0000_0000_0000

  /** `isspace` in the "C" locale. */
  predicate IsSpace(c: char)
  {
    c == ' ' || 9 <= c as int <= 13
  }

  /** The value of `c` as a digit in any base up to 36, or 36 when it is none. */
  function DigitValue(c: char): (v: nat)
    ensures v <= 36
  {
    if '0' <= c <= '9' then c as int - '0' as int
    else if 'a' <= c <= 'z' then c as int - 'a' as int + 10
    else if 'A' <= c <= 'Z' then c as int - 'A' as int + 10
    else 36
  }

  /** Length of the leading run of `s` made of characters `p` accepts. */
  function RunLength(s: string, p: char -> bool): (k: nat)
    ensures k <= |s|
    ensures k < |s| ==> !p(s[k])
  {
    if s == [] || !p(s[0]) then 0 else 1 + RunLength(s[1..], p)
  }

  /** Every character of the run is accepted. */
  lemma {:induction false} RunLengthRun(s: string, p: char -> bool)
    ensures forall j :: 0 <= j < RunLength(s, p) ==> p(s[j])
  {
    if s != [] && p(s[0]) {
      RunLengthRun(s[1..], p);
    }
  }

  /** The number a run of digits in `base` spells, most significant first. */
  function DigitsValue(d: string, base: nat): nat
    requires 2 <= base <= 36
    requires forall k :: 0 <= k < |d| ==> DigitValue(d[k]) < base
  {
    if d == [] then 0
    else
      var v := DigitsValue(d[..|d| - 1], base);
      ProductIsNat(v, base);
      v * base + DigitValue(d[|d| - 1])
  }

  lemma ProductIsNat(a: nat, b: nat)
    ensures a * b >= 0
  {
  }

  function Clamp64(x: int): (r: int)
    ensures LLONG_MIN <= r <= LLONG_MAX
    ensures LLONG_MIN <= x <= LLONG_MAX ==> r == x
  {
    if x > LLONG_MAX then LLONG_MAX else if x < LLONG_MIN then LLONG_MIN else x
  }

  predicate IsHexPrefix(u: string)
  {
    |u| >= 3 && u[0] == '0' && (u[1] == 'x' || u[1] == 'X') && DigitValue(u[2]) < 16
  }

  /** The base `strtoll` settles on and the text its digits start at.
      With `base0` it is `strtoll(s, NULL, 0)`: "0x" then hexadecimal, a leading
      '0' octal, decimal otherwise; without it, base 10 as `atoll` uses. */
  function BaseAndDigits(u: string, base0: bool): (r: (nat, string))
    ensures 2 <= r.0 <= 36 && |r.1| <= |u|
  {
    if !base0 then (10, u)
    else if IsHexPrefix(u) then (16, u[2..])
    else if |u| > 0 && u[0] == '0' then (8, u)
    else (10, u)
  }

  /** Text after leading white space and an optional sign, and whether the sign was '-'. */
  function Unsigned(s: string): (r: (bool, string))
    ensures |r.1| <= |s|
  {
    var t := s[RunLength(s, IsSpace)..];
    if |t| > 0 && (t[0] == '-' || t[0] == '+') then (t[0] == '-', t[1..]) else (false, t)
  }

  /** `strtoll(s, NULL, base0 ? 0 : 10)`: the longest number at the head of `s`,
      0 when there is none, saturated at the bounds of `long long`. */
  function Strtoll(s: string, base0: bool): (r: int)
    ensures LLONG_MIN <= r <= LLONG_MAX
  {
    var (neg, u) := Unsigned(s);
    var (base, digits) := BaseAndDigits(u, base0);
    RunLengthRun(digits, c => DigitValue(c) < base);
    var m: int := DigitsValue(digits[..RunLength(digits, c => DigitValue(c) < base)], base);
    Clamp64(if neg then -m else m)
  }

  /** `atoll(s)`, which glibc computes as `strtoll(s, NULL, 10)`. */
  function Atoll(s: string): (r: int)
    ensures LLONG_MIN <= r <= LLONG_MAX
  {
    Strtoll(s, false)
  }

  lemma {:induction false} DigitsValueFormat(n: nat)
    ensures forall k :: 0 <= k < |FormatDecimal(n)| ==> DigitValue(FormatDecimal(n)[k]) < 10
    ensures DigitsValue(FormatDecimal(n), 10) == n
    decreases n
  {
    if n >= 10 {
      DigitsValueFormat(n / 10);
      var r := FormatDecimal(n);
      assert r[..|r| - 1] == FormatDecimal(n / 10);
    }
  }

  lemma {:induction false} RunLengthPrefix(a: string, b: string, p: char -> bool)
    requires forall k :: 0 <= k < |a| ==> p(a[k])
    requires b == [] || !p(b[0])
    ensures RunLength(a + b, p) == |a|
    decreases |a|
  {
    if a != [] {
      assert (a + b)[1..] == a[1..] + b;
      RunLengthPrefix(a[1..], b, p);
    } else {
      assert a + b == b;
    }
  }

  /** `atoll` reads back what `printf("%d")` wrote, up to the first non-digit. */
  lemma AtollFormatDecimal(n: nat, rest: string)
    requires n <= LLONG_MAX
    requires rest == [] || !IsDecimalDigit(rest[0])
    ensures Atoll(FormatDecimal(n) + rest) == n
  {
    var f := FormatDecimal(n);
    var s := f + rest;
    assert RunLength(s, IsSpace) == 0 by {
      assert !IsSpace(s[0]);
    }
    assert s[0..] == s;
    DigitsValueFormat(n);
    RunLengthPrefix(f, rest, c => DigitValue(c) < 10);
    assert s[..|f|] == f;
  }

  /** `strtoll(_, NULL, 0)` reads back what `printf("%d")` wrote. */
  lemma StrtollBase0FormatDecimal(n: nat)
    requires n <= LLONG_MAX
    ensures Strtoll(FormatDecimal(n), true) == n
  {
    var f := FormatDecimal(n);
    assert RunLength(f, IsSpace) == 0 by {
      assert !IsSpace(f[0]);
    }
    assert f[0..] == f;
    DigitsValueFormat(n);
    if n == 0 {
      assert f == "0";
      assert Unsigned(f).1 == "0";
      assert BaseAndDigits("0", true) == (8, "0");
      assert RunLength("0", c => DigitValue(c) < 8) == 1;
      assert "0"[..1] == "0";
      assert DigitsValue("0", 8) == DigitsValue([], 8) * 8 + 0;
    } else {
      assert !IsHexPrefix(f);
      RunLengthPrefix(f, [], c => DigitValue(c) < 10);
      assert f + [] == f;
    }
  }

  /** A decimal number too large for `long long` saturates: `atoll` gives
      LLONG_MAX for it and LLONG_MIN for its negation. */
  lemma AtollSaturates(d: string)
    requires forall k :: 0 <= k < |d| ==> DigitValue(d[k]) < 10
    requires DigitsValue(d, 10) > LLONG_MAX
    ensures Atoll(d) == LLONG_MAX
    ensures Atoll("-" + d) == LLONG_MIN
  {
    assert d != [];
    RunLengthPrefix(d, [], c => DigitValue(c) < 10);
    assert d + [] == d && d[..|d|] == d;
    assert Unsigned(d) == (false, d) by {
      assert !IsSpace(d[0]);
      assert d[0..] == d;
    }
    var n := "-" + d;
    assert Unsigned(n) == (true, d) by {
      assert !IsSpace(n[0]);
      assert n[0..] == n && n[1..] == d;
    }
  }

  /** Leading zeros do not change the value of a digit run. */
  lemma {:induction false} DigitsValueLeadingZero(d: string, base: nat)
    requires 2 <= base <= 36
    requires forall k :: 0 <= k < |d| ==> DigitValue(d[k]) < base
    ensures DigitsValue("0" + d, base) == DigitsValue(d, base)
    decreases |d|
  {
    if d != [] {
      var z := "0" + d;
      assert z[..|z| - 1] == "0" + d[..|d| - 1];
      DigitsValueLeadingZero(d[..|d| - 1], base);
    } else {
      assert ("0" + d)[..0] == [];
    }
  }

  /** A leading '0' makes `strtoll(_, NULL, 0)` read octal. */
  lemma StrtollBase0Octal(d: string)
    requires forall k :: 0 <= k < |d| ==> '0' <= d[k] <= '7'
    requires DigitsValue(d, 8) <= LLONG_MAX
    ensures Strtoll("0" + d, true) == DigitsValue(d, 8)
  {
    var s := "0" + d;
    assert Unsigned(s) == (false, s) by {
      assert RunLength(s, IsSpace) == 0 by {
        assert !IsSpace(s[0]);
      }
      assert s[0..] == s;
    }
    assert BaseAndDigits(s, true) == (8, s) by {
      assert !IsHexPrefix(s);
    }
    assert RunLength(s, c => DigitValue(c) < 8) == |s| by {
      assert forall k :: 0 <= k < |s| ==> DigitValue(s[k]) < 8 by {
        forall k | 0 <= k < |s| ensures DigitValue(s[k]) < 8 {
          if k > 0 {
            assert s[k] == d[k - 1];
          }
        }
      }
      RunLengthPrefix(s, [], c => DigitValue(c) < 8);
      assert s + [] == s;
    }
    assert s[..|s|] == s;
    DigitsValueLeadingZero(d, 8);
  }

  /** Text with no digit at its head (after white space and sign) reads as 0. */
  lemma StrtollNoDigits(s: string, base0: bool)
    requires Unsigned(s).1 == [] || (DigitValue(Unsigned(s).1[0]) >= 8 && !IsDecimalDigit(Unsigned(s).1[0]))
    ensures Strtoll(s, base0) == 0
  {
    var u := Unsigned(s).1;
    var (base, digits) := BaseAndDigits(u, base0);
    assert digits == u;
    assert RunLength(digits, c => DigitValue(c) < base) == 0;
  }

  // ---------------------------------------------------------------------------
  // g_strrstr and character counting
  // ---------------------------------------------------------------------------

  /** `pat` occurs in `t` starting at index `k`. */
  predicate OccursAt(t: string, pat: string, k: nat)
  {
    k + |pat| <= |t| && t[k..k + |pat|] == pat
  }

  /** `g_strrstr(t, pat)`: the index of the last occurrence of `pat` in `t`. */
  function LastOccurrence(t: string, pat: string): (r: Option<nat>)
    requires |pat| > 0
    ensures r.Some? ==> OccursAt(t, pat, r.value)
    ensures r.Some? ==> forall k: nat :: r.value < k ==> !OccursAt(t, pat, k)
    ensures r.None? ==> forall k: nat :: !OccursAt(t, pat, k)
    decreases |t|
  {
    if |t| < |pat| then None
    else if t[|t| - |pat|..] == pat then Some(|t| - |pat|)
    else
      var r := LastOccurrence(t[..|t| - 1], pat);
      assert forall k: nat :: OccursAt(t, pat, k) ==> k < |t| - |pat| && OccursAt(t[..|t| - 1], pat, k) by {
        forall k: nat | OccursAt(t, pat, k)
          ensures k < |t| - |pat| && OccursAt(t[..|t| - 1], pat, k)
        {
          assert t[..|t| - 1][k..k + |pat|] == t[k..k + |pat|];
        }
      }
      assert r.Some? ==> OccursAt(t, pat, r.value) by {
        if r.Some? {
          assert t[..|t| - 1][r.value..r.value + |pat|] == t[r.value..r.value + |pat|];
        }
      }
      r
  }

  /** Number of occurrences of `c` in `s`. */
  function CountChar(s: string, c: char): (n: nat)
    ensures n <= |s|
    ensures n == 0 <==> c !in s
  {
    if s == [] then 0
    else
      assert s == [s[0]] + s[1..];
      (if s[0] == c then 1 else 0) + CountChar(s[1..], c)
  }

  // ---------------------------------------------------------------------------
  // Command lines as words: fields separated by spaces
  // ---------------------------------------------------------------------------

  /** The leading run of non-space characters. */
  function Token(s: string): (r: string)
    ensures |r| <= |s| && r == s[..|r|]
    ensures ' ' !in r
    ensures |r| < |s| ==> s[|r|] == ' '
    ensures s != [] && s[0] != ' ' ==> |r| >= 1
  {
    if s == [] || s[0] == ' ' then [] else [s[0]] + Token(s[1..])
  }

  /** The space-separated fields of a command line: maximal runs of
      non-space characters. On a line made of `IsWord` words joined by spaces
      these are the words `/bin/sh` passes to the command. */
  function Words(s: string): (w: seq<string>)
    decreases |s|
  {
    if s == [] then []
    else if s[0] == ' ' then Words(s[1..])
    else [Token(s)] + Words(s[|Token(s)|..])
  }

  lemma {:induction false} TokenStops(x: string, y: string)
    ensures Token(x + " " + y) == Token(x)
    decreases |x|
  {
    if x == [] {
    } else if x[0] != ' ' {
      assert (x + " " + y)[1..] == x[1..] + " " + y;
      TokenStops(x[1..], y);
    }
  }

  /** A space between two pieces of a command line separates their words. */
  lemma {:induction false} WordsSpaceJoin(x: string, y: string)
    ensures Words(x + " " + y) == Words(x) + Words(y)
    decreases |x|
  {
    var s := x + " " + y;
    if x == [] {
      assert s[1..] == y;
    } else if x[0] == ' ' {
      assert Words(s) == Words(x[1..] + " " + y) by {
        assert s[1..] == x[1..] + " " + y;
      }
      WordsSpaceJoin(x[1..], y);
    } else {
      var t := Token(x);
      assert Words(s) == [t] + Words(x[|t|..] + " " + y) by {
        TokenStops(x, y);
        assert s[|t|..] == x[|t|..] + " " + y;
      }
      WordsSpaceJoin(x[|t|..], y);
    }
  }

  /** Appending text that starts with a space appends its words. */
  lemma WordsAppend(x: string, y: string)
    requires y == [] || y[0] == ' '
    ensures Words(x + y) == Words(x) + Words(y)
  {
    if y == [] {
      assert x + y == x;
    } else {
      assert x + y == x + " " + y[1..];
      WordsSpaceJoin(x, y[1..]);
      assert Words(y) == Words(y[1..]);
    }
  }

  /** A non-empty word without spaces is one word. */
  lemma OneWord(w: string)
    requires w != [] && ' ' !in w
    ensures Words(w) == [w]
  {
    var t := Token(w);
    assert |t| == |w|;
    assert t == w;
    assert w[|t|..] == [];
    assert Words(w) == [t] + Words(w[|t|..]);
  }

  /** A character `/bin/sh` passes on unchanged outside quotes: not a blank,
      a quote, the escape character, an expansion or globbing character, an
      operator, nor the comment or tilde character that are special at the
      start of a word. */
  predicate IsPlainChar(c: char)
  {
    !(|| c == ' ' || c == '\t' || c == '\n' || c == '\'' || c == '"' || c == '\\' || c == '$' || c == '`'
      || c == ';' || c == '&' || c == '|' || c == '<' || c == '>' || c == '(' || c == ')'
      || c == '*' || c == '?' || c == '[' || c == ']' || c == '{' || c == '}' || c == '#' || c == '~' || c == '!')
  }

  /** A plain word: non-empty, and made of plain characters only, so the
      shell passes it on exactly as written. */
  predicate IsWord(w: string)
  {
    w != [] && forall k :: 0 <= k < |w| ==> IsPlainChar(w[k])
  }

  /** A plain word has no space in it. */
  lemma WordHasNoSpace(w: string)
    requires IsWord(w)
    ensures ' ' !in w
  {
  }

  /** A printed number is a plain word. */
  lemma DecimalIsWord(n: nat)
    ensures IsWord(FormatDecimal(n))
  {
    var d := FormatDecimal(n);
    forall k | 0 <= k < |d| ensures IsPlainChar(d[k]) {
      assert IsDecimalDigit(d[k]);
    }
  }

  /** Two plain words written together make one plain word. */
  lemma WordConcat(a: string, b: string)
    requires IsWord(a) && IsWord(b)
    ensures IsWord(a + b)
  {
    assert forall k :: |a| <= k < |a + b| ==> (a + b)[k] == b[k - |a|];
  }

  /** A plain word followed by nothing or by a space is the first word. */
  lemma LeadingWord(w: string, rest: string)
    requires IsWord(w) && (rest == [] || rest[0] == ' ')
    ensures Words(w + rest) == [w] + Words(rest)
  {
    WordsAppend(w, rest);
    WordHasNoSpace(w);
    OneWord(w);
  }

  /** Leading spaces do not make words. */
  lemma LeadingSpace(s: string)
    ensures Words(" " + s) == Words(s)
  {
    assert (" " + s)[1..] == s;
  }

  /** Words joined by single spaces: a command line built by concatenation. */
  function Unwords(ws: seq<string>): string
  {
    if ws == [] then "" else if |ws| == 1 then ws[0] else ws[0] + " " + Unwords(ws[1..])
  }

  /** Splitting a command line built from plain words gives those words back. */
  lemma {:induction false} WordsUnwords(ws: seq<string>)
    requires forall k :: 0 <= k < |ws| ==> IsWord(ws[k])
    ensures Words(Unwords(ws)) == ws
  {
    if |ws| == 1 {
      OneWord(ws[0]);
    } else if |ws| > 1 {
      WordsUnwords(ws[1..]);
      OneWord(ws[0]);
      WordsSpaceJoin(ws[0], Unwords(ws[1..]));
      assert ws == [ws[0]] + ws[1..];
    }
  }
}
