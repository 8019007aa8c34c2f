/**
  String helpers with the semantics of the JavaScript built-ins the application
  relies on: `trim`, `includes`, `startsWith`, `split` with a string separator,
  `join`, ASCII case mapping, `Number.prototype.toString` on naturals and
  `padStart`.
 */
module Text {
  import opened Wrappers

  /** The ECMAScript WhiteSpace and LineTerminator code points: what `trim` strips. */
  predicate IsSpace(c: char) {
    || c == '\t' || c == '\n' || c == '\U{000B}' || c == '\U{000C}' || c == '\r' || c == ' '
    || c == '\U{00A0}' || c == '\U{1680}' || ('\U{2000}' <= c <= '\U{200A}')
    || c == '\U{2028}' || c == '\U{2029}' || c == '\U{202F}' || c == '\U{205F}'
    || c == '\U{3000}' || c == '\U{FEFF}'
  }

  predicate AllSpace(s: string) {
    All(s, IsSpace)
  }

  /** Every character of `s` satisfies `p`. */
  predicate All(s: string, p: char -> bool) {
    forall i :: 0 <= i < |s| ==> p(s[i])
  }

  /** The first index at or after `i` whose character does not satisfy `p` (or `|s|`). */
  function SkipForward(s: string, p: char -> bool, i: nat): (j: nat)
    requires i <= |s|
    ensures i <= j <= |s|
    ensures forall k :: i <= k < j ==> p(s[k])
    ensures j < |s| ==> !p(s[j])
    decreases |s| - i
  {
    if i < |s| && p(s[i]) then SkipForward(s, p, i + 1) else i
  }

  /** The least index `k` with `lo <= k <= j` such that every character in `s[k..j]`
      satisfies `p`. */
  function SkipBackward(s: string, p: char -> bool, lo: nat, j: nat): (k: nat)
    requires lo <= j <= |s|
    ensures lo <= k <= j
    ensures forall m :: k <= m < j ==> p(s[m])
    ensures lo < k ==> !p(s[k - 1])
    decreases j
  {
    if lo < j && p(s[j - 1]) then SkipBackward(s, p, lo, j - 1) else j
  }

  /** Where the stripped part of `s` starts and ends. */
  function StripStart(s: string, p: char -> bool): nat {
    SkipForward(s, p, 0)
  }

  function StripEnd(s: string, p: char -> bool): (e: nat)
    ensures StripStart(s, p) <= e <= |s|
  {
    SkipBackward(s, p, StripStart(s, p), |s|)
  }

  /** `s` without its longest prefix and longest suffix of characters satisfying `p`. */
  function Strip(s: string, p: char -> bool): (r: string)
    ensures r == [] || (!p(r[0]) && !p(r[|r| - 1]))
    ensures r == [] <==> All(s, p)
  {
    var a, e := StripStart(s, p), StripEnd(s, p);
    assert a < e ==> !p(s[a]) && !p(s[e - 1]);
    s[a..e]
  }

  /** Stripping removes only characters satisfying `p`, and only at the two ends: `s` is
      a run of such characters, the result, and another run of them. */
  lemma StripIsSlice(s: string, p: char -> bool)
    ensures var a, e := StripStart(s, p), StripEnd(s, p);
      && s == s[..a] + Strip(s, p) + s[e..]
      && All(s[..a], p) && All(s[e..], p)
  {
    var a, e := StripStart(s, p), StripEnd(s, p);
    ThreeParts(s, a, e);
  }

  /** A sequence cut at two points is the concatenation of its three pieces. */
  lemma ThreeParts(s: string, a: nat, e: nat)
    requires a <= e <= |s|
    ensures s == s[..a] + s[a..e] + s[e..]
  {
    assert s == s[..e] + s[e..];
    assert s[..e] == s[..a] + s[a..e];
  }

  /** Stripping twice is stripping once. */
  lemma StripIdempotent(s: string, p: char -> bool)
    ensures Strip(Strip(s, p), p) == Strip(s, p)
  {
    var r := Strip(s, p);
    if r != [] {
      assert StripStart(r, p) == 0;
      assert StripEnd(r, p) == |r|;
      assert r[0..|r|] == r;
    }
  }

  /** `s.trimStart()`: drops the longest all-space prefix. */
  function TrimStart(s: string): (r: string)
    ensures r == [] || !IsSpace(r[0])
    ensures |r| <= |s| && s == s[..|s| - |r|] + r && AllSpace(s[..|s| - |r|])
  {
    var a := SkipForward(s, IsSpace, 0);
    assert s == s[..a] + s[a..];
    s[a..]
  }

  /** `s.trimEnd()`: drops the longest all-space suffix. */
  function TrimEnd(s: string): (r: string)
    ensures r == [] || !IsSpace(r[|r| - 1])
    ensures |r| <= |s| && s == r + s[|r|..] && AllSpace(s[|r|..])
  {
    var e := SkipBackward(s, IsSpace, 0, |s|);
    assert s == s[..e] + s[e..];
    s[..e]
  }

  /** `s.trim()`. */
  function Trim(s: string): (r: string)
    ensures r == [] || (!IsSpace(r[0]) && !IsSpace(r[|r| - 1]))
    ensures r == [] <==> AllSpace(s)
  {
    Strip(s, IsSpace)
  }

  /** `trim` removes only whitespace, and only at the two ends: the input is a run of
      whitespace, the trimmed string, and another run of whitespace. */
  lemma TrimIsSlice(s: string)
    ensures var a, e := StripStart(s, IsSpace), StripEnd(s, IsSpace);
      && s == s[..a] + Trim(s) + s[e..]
      && AllSpace(s[..a]) && AllSpace(s[e..])
  {
    StripIsSlice(s, IsSpace);
  }

  /** Trimming twice is trimming once. */
  lemma TrimIdempotent(s: string)
    ensures Trim(Trim(s)) == Trim(s)
  {
    StripIdempotent(s, IsSpace);
  }

  function LowerChar(c: char): char {
    if 'A' <= c <= 'Z' then (c as int + 32) as char else c
  }

  function UpperChar(c: char): char {
    if 'a' <= c <= 'z' then (c as int - 32) as char else c
  }

  /** `s.toLowerCase()`, restricted to the ASCII letters. */
  function ToLower(s: string): (r: string)
    ensures |r| == |s|
  {
    seq(|s|, i requires 0 <= i < |s| => LowerChar(s[i]))
  }

  /** `s.toUpperCase()`, restricted to the ASCII letters. */
  function ToUpper(s: string): (r: string)
    ensures |r| == |s|
  {
    seq(|s|, i requires 0 <= i < |s| => UpperChar(s[i]))
  }

  /** `sub` occurs in `s` starting at index `i`. */
  predicate OccursAt(s: string, sub: string, i: nat) {
    i + |sub| <= |s| && s[i..i + |sub|] == sub
  }

  /** `s.includes(sub)`. */
  predicate Includes(s: string, sub: string) {
    exists i: nat :: i <= |s| && OccursAt(s, sub, i)
  }
  /** A string none of whose characters is `c` does not include `c`. */
  lemma Excludes(s: string, c: char)
    requires forall k :: 0 <= k < |s| ==> s[k] != c
    ensures !Includes(s, [c])
  {
    forall i: nat | i <= |s|
      ensures !OccursAt(s, [c], i)
    {
      if i + 1 <= |s| {
        assert s[i..i + 1][0] == s[i];
      }
    }
  }


  /** `s.startsWith(p)`. */
  predicate StartsWith(s: string, p: string) {
    OccursAt(s, p, 0)
  }

  /** The empty string is included in every string (so an empty search matches everything). */
  lemma IncludesEmpty(s: string)
    ensures Includes(s, "")
  {
    assert OccursAt(s, "", 0);
  }

  /** `s.indexOf(sep, from)`, with `None` for -1. */
  function IndexOf(s: string, sep: string, from: nat): (r: Option<nat>)
    decreases |s| - from
    ensures r.Some? ==> from <= r.value && OccursAt(s, sep, r.value)
    ensures r.Some? ==> forall k: nat :: from <= k < r.value ==> !OccursAt(s, sep, k)
    ensures r.None? ==> forall k: nat :: from <= k ==> !OccursAt(s, sep, k)
  {
    if from + |sep| > |s| then None
    else if OccursAt(s, sep, from) then Some(from)
    else IndexOf(s, sep, from + 1)
  }

  lemma NoOccurrenceBefore(s: string, sep: string, i: nat)
    requires |sep| > 0 && i <= |s|
    requires forall k: nat :: k < i ==> !OccursAt(s, sep, k)
    ensures !Includes(s[..i], sep)
  {
    if Includes(s[..i], sep) {
      var j: nat :| j <= i && OccursAt(s[..i], sep, j);
      assert s[..i][j..j + |sep|] == s[j..j + |sep|];
      assert OccursAt(s, sep, j);
      assert false;
    }
  }

  /** `s.split(sep)` for a non-empty string separator: the pieces between non-overlapping
      occurrences of `sep`, scanning from the left. */
  function Split(s: string, sep: string): (parts: seq<string>)
    requires |sep| > 0
    decreases |s|
    ensures |parts| >= 1
    ensures forall k :: 0 <= k < |parts| ==> !Includes(parts[k], sep)
    // the first piece runs from the start to the first occurrence, or to the end
    ensures |parts[0]| <= |s| && parts[0] == s[..|parts[0]|]
    ensures |parts[0]| == |s| || OccursAt(s, sep, |parts[0]|)
  {
    match IndexOf(s, sep, 0)
    case None =>
      assert !Includes(s, sep);
      [s]
    case Some(i) =>
      NoOccurrenceBefore(s, sep, i);
      [s[..i]] + Split(s[i + |sep|..], sep)
  }

  /** `parts.join(sep)`. */
  function Join(parts: seq<string>, sep: string): string
    requires |parts| >= 1
  {
    if |parts| == 1 then parts[0] else parts[0] + sep + Join(parts[1..], sep)
  }

  /** Joining the pieces of a split with the same separator gives back the string. */
  lemma {:induction false} SplitJoin(s: string, sep: string)
    requires |sep| > 0
    ensures Join(Split(s, sep), sep) == s
    decreases |s|
  {
    var idx := IndexOf(s, sep, 0);
    if idx.Some? {
      var i := idx.value;
      var rest := s[i + |sep|..];
      SplitJoin(rest, sep);
      var parts := Split(s, sep);
      assert parts == [s[..i]] + Split(rest, sep);
      assert parts[1..] == Split(rest, sep);
      calc {
        Join(parts, sep);
        s[..i] + sep + Join(Split(rest, sep), sep);
        s[..i] + sep + rest;
        { assert s[i..i + |sep|] == sep; }
        s;
      }
    }
  }

  /** A string without the separator splits into itself alone. */
  lemma SplitFree(s: string, sep: string)
    requires |sep| > 0 && !Includes(s, sep)
    ensures Split(s, sep) == [s]
  {
  }

  /** A string that starts with the separator splits into "" followed by the split of the rest. */
  lemma SplitLeading(sep: string, b: string)
    requires |sep| > 0
    ensures Split(sep + b, sep) == [""] + Split(b, sep)
  {
    var s := sep + b;
    assert OccursAt(s, sep, 0);
    assert s[|sep|..] == b;
  }

  /** With a one-character separator, a separator-free head is the first piece. */
  lemma SplitAfterFree(a: string, sep: string, b: string)
    requires |sep| == 1 && !Includes(a, sep)
    ensures Split(a + sep + b, sep) == [a] + Split(b, sep)
  {
    var s := a + sep + b;
    assert OccursAt(s, sep, |a|);
    forall k: nat | k < |a|
      ensures !OccursAt(s, sep, k)
    {
      assert s[k..k + 1] == a[k..k + 1];
      assert !OccursAt(a, sep, k);
    }
    var r := IndexOf(s, sep, 0);
    assert r == Some(|a|);
    assert s[..|a|] == a;
    assert s[|a| + 1..] == b;
  }

  /** A one-character string is included exactly when its character occurs. */
  lemma IncludesChar(s: string, d: char)
    ensures Includes(s, [d]) <==> d in s
  {
    if d in s {
      var i :| 0 <= i < |s| && s[i] == d;
      assert s[i..i + 1] == [d];
      assert OccursAt(s, [d], i);
    }
    if Includes(s, [d]) {
      var i: nat :| i <= |s| && OccursAt(s, [d], i);
      assert s[i..i + 1][0] == s[i];
    }
  }

  /** With a one-character separator, a leading non-separator character joins the first
      piece of the split of the rest. */
  lemma SplitCons(c: char, rest: string, d: char)
    requires c != d
    ensures var t := Split(rest, [d]);
      Split([c] + rest, [d]) == [[c] + t[0]] + t[1..]
  {
    var t := Split(rest, [d]);
    var p := t[0];
    assert !Includes([c] + p, [d]) by {
      assert !Includes(p, [d]);
      IncludesChar(p, d);
      IncludesChar([c] + p, d);
    }
    if |p| == |rest| {
      SplitConsLast(c, rest, d);
    } else {
      SplitConsMid(c, rest, d);
    }
  }

  /** `SplitCons` when the rest holds a separator after its first piece. */
  lemma SplitConsMid(c: char, rest: string, d: char)
    requires c != d && |Split(rest, [d])[0]| < |rest|
    requires !Includes([c] + Split(rest, [d])[0], [d])
    ensures var t := Split(rest, [d]);
      Split([c] + rest, [d]) == [[c] + t[0]] + t[1..]
  {
    var t := Split(rest, [d]);
    var b := rest[|t[0]| + 1..];
    SplitRestShape(rest, d);
    var cp := [c] + t[0];
    assert [c] + rest == cp + [d] + b;
    SplitAfterFree(cp, [d], b);
  }

  /** A string whose first piece ends at a separator is that piece, the separator and a
      remainder whose split gives the other pieces. */
  lemma SplitRestShape(rest: string, d: char)
    requires |Split(rest, [d])[0]| < |rest|
    ensures var t := Split(rest, [d]);
      var b := rest[|t[0]| + 1..];
      rest == t[0] + [d] + b && t[1..] == Split(b, [d])
  {
    var t := Split(rest, [d]);
    var p := t[0];
    var b := rest[|p| + 1..];
    SeparatorAt(rest, p, d);
    SplitAfterFree(p, [d], b);
  }

  /** A string whose prefix `p` is followed by the character `d` is `p`, `d` and the rest. */
  lemma SeparatorAt(s: string, p: string, d: char)
    requires |p| < |s| && p == s[..|p|] && OccursAt(s, [d], |p|)
    ensures s == p + [d] + s[|p| + 1..]
  {
    assert s[|p|..|p| + 1] == [d];
  }

  /** `SplitCons` when the rest holds no separator. */
  lemma SplitConsLast(c: char, rest: string, d: char)
    requires c != d && |Split(rest, [d])[0]| == |rest|
    ensures Split([c] + rest, [d]) == [[c] + rest]
    ensures Split(rest, [d]) == [rest]
  {
    var p := Split(rest, [d])[0];
    assert p == rest;
    assert !Includes(rest, [d]);
    IncludesChar(rest, d);
    IncludesChar([c] + rest, d);
    SplitFree(rest, [d]);
    SplitFree([c] + rest, [d]);
  }

  predicate IsDigit(c: char) {
    '0' <= c <= '9'
  }

  predicate AllDigits(s: string) {
    forall i :: 0 <= i < |s| ==> IsDigit(s[i])
  }

  function DigitChar(d: nat): (c: char)
    requires d < 10
    ensures IsDigit(c)
  {
    ('0' as int + d) as char
  }

  function DigitValue(c: char): (d: nat)
    requires IsDigit(c)
    ensures d < 10 && DigitChar(d) == c
  {
    c as int - '0' as int
  }

  /** `n.toString()` for a natural number: decimal digits without leading zeros. */
  function Decimal(n: nat): (r: string)
    ensures |r| >= 1 && AllDigits(r)
    ensures |r| > 1 ==> r[0] != '0'
  {
    if n < 10 then [DigitChar(n)] else Decimal(n / 10) + [DigitChar(n % 10)]
  }

  /** The value of a string of decimal digits (leading zeros allowed). */
  function ParseDigits(s: string): nat
    requires AllDigits(s)
  {
    if s == [] then 0 else ParseDigits(s[..|s| - 1]) * 10 + DigitValue(s[|s| - 1])
  }

  /** Reading back the decimal rendering of a natural gives the natural. */
  lemma {:induction false} DecimalRoundTrip(n: nat)
    ensures ParseDigits(Decimal(n)) == n
  {
    if n >= 10 {
      DecimalRoundTrip(n / 10);
      var r := Decimal(n);
      assert r[..|r| - 1] == Decimal(n / 10);
    }
  }

  function Repeat(c: char, k: nat): (r: string)
    ensures |r| == k && forall i :: 0 <= i < k ==> r[i] == c
  {
    if k == 0 then [] else [c] + Repeat(c, k - 1)
  }

  /** `s.padStart(width, [c])`: left-fills with `c` up to `width` characters. */
  function PadStart(s: string, width: nat, c: char): (r: string)
    ensures |r| == if |s| >= width then |s| else width
    ensures r[|r| - |s|..] == s
    ensures forall i :: 0 <= i < |r| - |s| ==> r[i] == c
  {
    if |s| >= width then s else Repeat(c, width - |s|) + s
  }

  /** Leading zeros do not change the value of a digit string. */
  lemma {:induction false} LeadingZeros(z: string, s: string)
    requires forall i :: 0 <= i < |z| ==> z[i] == '0'
    requires AllDigits(s)
    ensures AllDigits(z + s) && ParseDigits(z + s) == ParseDigits(s)
    decreases |s|
  {
    if s == [] {
      assert z + s == z;
      AllZeros(z);
    } else {
      LeadingZeros(z, s[..|s| - 1]);
      assert (z + s)[..|z + s| - 1] == z + s[..|s| - 1];
    }
  }

  lemma {:induction false} AllZeros(z: string)
    requires forall i :: 0 <= i < |z| ==> z[i] == '0'
    ensures AllDigits(z) && ParseDigits(z) == 0
  {
    if z != [] {
      AllZeros(z[..|z| - 1]);
    }
  }
}
