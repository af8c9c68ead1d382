/**
 * Character-level helpers shared by the parser, the URL splitter and the
 * settings dialog: the C library's `isspace`/`tolower` in the "C" locale,
 * `strstr`, `strncpy` truncation, a C string's cut at its first NUL, and
 * decimal conversion (`%lu` formatting and an `atoi`-style leading-digit read).
 */
module Text {

  datatype Option<T> = None | Some(value: T)

  /** `isspace` in the "C" locale: space, \t, \n, \v, \f, \r. */
  predicate IsSpace(c: char) {
    c == ' ' || c == '\t' || c == '\n' || c == '\U{B}' || c == '\U{C}' || c == '\r'
  }

  predicate AllSpace(s: string) {
    forall i :: 0 <= i < |s| ==> IsSpace(s[i])
  }

  /** Drops leading whitespace (the `while (*p && isspace(*p)) p++` idiom). */
  function TrimLeft(s: string): (r: string)
    ensures |r| <= |s| && r == s[|s| - |r|..]
    ensures r == [] || !IsSpace(r[0])
    ensures forall i :: 0 <= i < |s| - |r| ==> IsSpace(s[i])
  {
    if |s| > 0 && IsSpace(s[0]) then
      var t := s[1..];
      var r := TrimLeft(t);
      assert r == s[|s| - |r|..];
      assert forall i :: 0 <= i < |s| - |r| ==> IsSpace(s[i]) by {
        forall i | 0 <= i < |s| - |r| ensures IsSpace(s[i]) {
          if i > 0 {
            assert s[i] == t[i - 1];
          }
        }
      }
      r
    else s
  }

  /** Drops trailing whitespace. */
  function TrimRight(s: string): (r: string)
    ensures |r| <= |s| && r == s[..|r|]
    ensures r == [] || !IsSpace(r[|r| - 1])
    ensures forall i :: |r| <= i < |s| ==> IsSpace(s[i])
  {
    if |s| > 0 && IsSpace(s[|s| - 1]) then
      var t := s[..|s| - 1];
      var r := TrimRight(t);
      assert r == s[..|r|];
      assert forall i :: |r| <= i < |s| ==> IsSpace(s[i]) by {
        forall i | |r| <= i < |s| ensures IsSpace(s[i]) {
          if i < |s| - 1 {
            assert s[i] == t[i];
          }
        }
      }
      r
    else s
  }

  /** Whitespace removed at both ends. */
  function Trim(s: string): string {
    TrimRight(TrimLeft(s))
  }

  /** Trimming is empty exactly when the text is all whitespace. */
  lemma TrimEmptyIffAllSpace(s: string)
    ensures Trim(s) == [] <==> AllSpace(s)
    ensures TrimLeft(s) == [] <==> AllSpace(s)
  {
    var l := TrimLeft(s);
    if l != [] {
      assert s[|s| - |l|] == l[0];
    }
  }

  /** A text that is `pad1 + w + pad2` with whitespace pads and a word that
      neither starts nor ends with whitespace trims to that word. */
  lemma {:induction false} TrimOfPadded(pad1: string, w: string, pad2: string)
    requires AllSpace(pad1) && AllSpace(pad2)
    requires w != [] && !IsSpace(w[0]) && !IsSpace(w[|w| - 1])
    ensures Trim(pad1 + w + pad2) == w
  {
    TrimLeftOfPadded(pad1, w + pad2);
    assert pad1 + w + pad2 == pad1 + (w + pad2);
    TrimRightOfPadded(w, pad2);
  }

  lemma {:induction false} TrimLeftOfPadded(pad: string, rest: string)
    requires AllSpace(pad)
    requires rest == [] || !IsSpace(rest[0])
    ensures TrimLeft(pad + rest) == rest
  {
    if pad != [] {
      assert (pad + rest)[1..] == pad[1..] + rest;
      TrimLeftOfPadded(pad[1..], rest);
    }
  }

  lemma {:induction false} TrimRightOfPadded(rest: string, pad: string)
    requires AllSpace(pad)
    requires rest == [] || !IsSpace(rest[|rest| - 1])
    ensures TrimRight(rest + pad) == rest
  {
    if pad != [] {
      assert (rest + pad)[..|rest + pad| - 1] == rest + pad[..|pad| - 1];
      TrimRightOfPadded(rest, pad[..|pad| - 1]);
    } else {
      assert rest + pad == rest;
    }
  }

  /** When the first `k` characters of `s` end in a non-blank and only
      whitespace follows them, `TrimRight(s)` keeps exactly those `k`. */
  lemma TrimRightUnique(s: string, k: nat)
    requires k <= |s|
    requires k == 0 || !IsSpace(s[k - 1])
    requires forall i :: k <= i < |s| ==> IsSpace(s[i])
    ensures TrimRight(s) == s[..k]
  {
  }

  /** Every trimmed text is the word of some whitespace padding of it. */
  lemma {:induction false} TrimSplits(s: string) returns (i: nat, j: nat)
    ensures i <= j <= |s| && AllSpace(s[..i]) && AllSpace(s[j..]) && Trim(s) == s[i..j]
  {
    var l := TrimLeft(s);
    var r := TrimRight(l);
    i := |s| - |l|;
    j := i + |r|;
    SplitAround(s, l, r, i, j);
  }

  /** The trimmed text is `s` with only whitespace removed from its two ends. */
  lemma TrimIsInfix(s: string)
    ensures exists i, j :: 0 <= i <= j <= |s| && Trim(s) == s[i..j] && AllSpace(s[..i]) && AllSpace(s[j..])
  {
    var i, j := TrimSplits(s);
  }

  /** A suffix `l` after leading whitespace, and a prefix `r` of it before
      trailing whitespace, cut `s` into three at `i` and `j`. */
  lemma SplitAround(s: string, l: string, r: string, i: nat, j: nat)
    requires |l| <= |s| && l == s[|s| - |l|..] && forall k :: 0 <= k < |s| - |l| ==> IsSpace(s[k])
    requires |r| <= |l| && r == l[..|r|] && forall k :: |r| <= k < |l| ==> IsSpace(l[k])
    requires i == |s| - |l| && j == i + |r|
    ensures i <= j <= |s| && AllSpace(s[..i]) && AllSpace(s[j..]) && s[i..j] == r
  {
    assert s[i..j] == s[i..][..|r|];
    AllSpacePrefix(s, i);
    AllSpaceSuffix(s, l, j);
  }

  lemma AllSpacePrefix(s: string, i: nat)
    requires i <= |s| && forall k :: 0 <= k < i ==> IsSpace(s[k])
    ensures AllSpace(s[..i])
  {
    forall k | 0 <= k < i ensures IsSpace(s[..i][k]) {
      assert s[..i][k] == s[k];
    }
  }

  lemma AllSpaceSuffix(s: string, l: string, j: nat)
    requires |l| <= |s| && l == s[|s| - |l|..] && |s| - |l| <= j <= |s|
    requires forall k :: j - (|s| - |l|) <= k < |l| ==> IsSpace(l[k])
    ensures AllSpace(s[j..])
  {
    forall k | 0 <= k < |s| - j ensures IsSpace(s[j..][k]) {
      assert s[j..][k] == l[j - (|s| - |l|) + k];
    }
  }

  /** `tolower` in the "C" locale: only A-Z change. */
  function LowerChar(c: char): char {
    if 'A' <= c <= 'Z' then (c as int + 32) as char else c
  }

  function Lower(s: string): (r: string)
    ensures |r| == |s|
  {
    seq(|s|, i requires 0 <= i < |s| => LowerChar(s[i]))
  }

  /** The first `n` characters (what `strncpy` into an `n + 1` byte buffer keeps). */
  function Truncate(s: string, n: nat): (r: string)
    ensures |r| <= n && |r| <= |s| && r == s[..|r|]
    ensures |s| <= n ==> r == s
    ensures |s| > n ==> r == s[..n]
  {
    if |s| <= n then s else s[..n]
  }

  /** `pat` occurs in `s` at index `k`. */
  predicate IsAt(s: string, pat: string, k: nat) {
    k + |pat| <= |s| && s[k..k + |pat|] == pat
  }

  ghost predicate Contains(s: string, pat: string) {
    exists k: nat :: IsAt(s, pat, k)
  }

  /** `strstr(s + from, pat)`: the first occurrence of `pat` at or after `from`. */
  function FindFrom(s: string, pat: string, from: nat): (r: Option<nat>)
    ensures r.Some? ==> from <= r.value && IsAt(s, pat, r.value)
    ensures forall k: nat :: from <= k && (r.None? || k < r.value) ==> !IsAt(s, pat, k)
    decreases |s| - from
  {
    if from + |pat| > |s| then None
    else if IsAt(s, pat, from) then Some(from)
    else FindFrom(s, pat, from + 1)
  }

  /** Searching from the start finds something exactly when the pattern occurs. */
  lemma FindFromStart(s: string, pat: string)
    ensures FindFrom(s, pat, 0).Some? <==> Contains(s, pat)
  {
    var r := FindFrom(s, pat, 0);
    if r.Some? {
      assert IsAt(s, pat, r.value);
    }
  }

  /** The search stops at `k` when `k` is an occurrence and none lies in `[from, k)`. */
  lemma FindFirstAt(s: string, pat: string, from: nat, k: nat)
    requires from <= k && IsAt(s, pat, k)
    requires forall i: nat :: from <= i < k ==> !IsAt(s, pat, i)
    ensures FindFrom(s, pat, from) == Some(k)
  {
  }

  /** A C string ends at its first NUL: `strcat` and `strlen` see only this prefix. */
  function CStr(s: string): (r: string)
    ensures |r| <= |s| && r == s[..|r|]
    ensures forall i :: 0 <= i < |r| ==> r[i] != '\0'
    ensures |r| < |s| ==> s[|r|] == '\0'
  {
    if |s| == 0 || s[0] == '\0' then [] else [s[0]] + CStr(s[1..])
  }

  predicate IsDigit(c: char) {
    '0' <= c <= '9'
  }

  function DigitChar(d: nat): char
    requires d < 10
  {
    ('0' as int + d) as char
  }

  function DigitValue(c: char): nat
    requires IsDigit(c)
  {
    c as int - '0' as int
  }

  /** Decimal text of `n` without leading zeros, as `%lu` prints it. */
  function NatToString(n: nat): (r: string)
    ensures r != [] && forall i :: 0 <= i < |r| ==> IsDigit(r[i])
    ensures |r| > 1 ==> r[0] != '0'
    decreases n
  {
    if n < 10 then [DigitChar(n)] else NatToString(n / 10) + [DigitChar(n % 10)]
  }

  /** The value of a string of decimal digits. */
  function DigitsValue(s: string): nat
    requires forall i :: 0 <= i < |s| ==> IsDigit(s[i])
  {
    if s == [] then 0 else DigitsValue(s[..|s| - 1]) * 10 + DigitValue(s[|s| - 1])
  }

  /** Number of leading decimal digits of `s`. */
  function LeadingDigitCount(s: string): (k: nat)
    ensures k <= |s|
    ensures forall i :: 0 <= i < k ==> IsDigit(s[i])
    ensures k < |s| ==> !IsDigit(s[k])
  {
    if s != [] && IsDigit(s[0]) then 1 + LeadingDigitCount(s[1..]) else 0
  }

  /** The number its leading digits spell, 0 when there are none (`atoi`). */
  function LeadingNumber(s: string): nat {
    DigitsValue(s[..LeadingDigitCount(s)])
  }

  /** Reading back printed decimal text gives the number. */
  lemma {:induction false} DigitsValueOfNatToString(n: nat)
    ensures DigitsValue(NatToString(n)) == n
    decreases n
  {
    var r := NatToString(n);
    if n >= 10 {
      DigitsValueOfNatToString(n / 10);
      assert r[..|r| - 1] == NatToString(n / 10);
    }
  }

  /** `atoi` of printed decimal text followed by a non-digit gives the number back. */
  lemma LeadingNumberOfNatToString(n: nat, rest: string)
    requires rest == [] || !IsDigit(rest[0])
    ensures LeadingNumber(NatToString(n) + rest) == n
  {
    var d := NatToString(n);
    var s := d + rest;
    LeadingDigitCountOfDigits(d, rest);
    assert s[..|d|] == d;
    DigitsValueOfNatToString(n);
  }

  lemma {:induction false} LeadingDigitCountOfDigits(d: string, rest: string)
    requires forall i :: 0 <= i < |d| ==> IsDigit(d[i])
    requires rest == [] || !IsDigit(rest[0])
    ensures LeadingDigitCount(d + rest) == |d|
  {
    if d != [] {
      assert (d + rest)[1..] == d[1..] + rest;
      LeadingDigitCountOfDigits(d[1..], rest);
    } else {
      assert d + rest == rest;
    }
  }
}
