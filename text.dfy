/** The string operations of Python's `str` that the core relies on. */
module Text {
  import opened Wrappers

  /** `p` occurs in `s` starting at index `i`. */
  predicate OccursAt(s: string, p: string, i: nat) {
    i + |p| <= |s| && s[i..i + |p|] == p
  }

  /** `i` is the leftmost occurrence of `p` in `s`. */
  predicate IsFirstOccurrence(s: string, p: string, i: nat) {
    OccursAt(s, p, i) && forall j: nat :: j < i ==> !OccursAt(s, p, j)
  }

  /**
   * The leftmost occurrence of `p` in `s` at or after `i` (the search behind `str.find`);
   * what it finds is stated by `FindFromCorrect`.
   */
  function FindFrom(s: string, p: string, i: nat): Option<nat>
    decreases |s| - i
  {
    if i + |p| > |s| then None
    else if s[i..i + |p|] == p then Some(i)
    else FindFrom(s, p, i + 1)
  }

  lemma {:induction false} FindFromCorrect(s: string, p: string, i: nat)
    decreases |s| - i
    ensures FindFrom(s, p, i).Some? ==>
      i <= FindFrom(s, p, i).value && OccursAt(s, p, FindFrom(s, p, i).value)
    ensures FindFrom(s, p, i).Some? ==>
      forall j: nat :: i <= j < FindFrom(s, p, i).value ==> !OccursAt(s, p, j)
    ensures FindFrom(s, p, i).None? ==> forall j: nat :: i <= j ==> !OccursAt(s, p, j)
  {
    if i + |p| > |s| {
    } else if s[i..i + |p|] != p {
      FindFromCorrect(s, p, i + 1);
    }
  }

  function Find(s: string, p: string): Option<nat> {
    FindFrom(s, p, 0)
  }

  /** `Find` yields the leftmost occurrence, and nothing exactly when there is none. */
  lemma FindCorrect(s: string, p: string)
    ensures Find(s, p).Some? ==> IsFirstOccurrence(s, p, Find(s, p).value)
    ensures Find(s, p).None? ==> forall j: nat :: !OccursAt(s, p, j)
  {
    FindFromCorrect(s, p, 0);
  }

  /** Python's `p in s`. */
  predicate Contains(s: string, p: string) {
    Find(s, p).Some?
  }

  lemma ContainsIff(s: string, p: string)
    ensures Contains(s, p) <==> exists i: nat :: OccursAt(s, p, i)
  {
    FindCorrect(s, p);
    if Contains(s, p) {
      var i := Find(s, p).value;
      assert OccursAt(s, p, i);
    }
  }

  /** Python's `s.startswith(p)`. */
  predicate StartsWith(s: string, p: string) {
    |p| <= |s| && s[..|p|] == p
  }

  /** `s` starts with `p` exactly when `p` occurs at index 0, which is then its first occurrence. */
  lemma StartsWithAtStart(s: string, p: string)
    ensures StartsWith(s, p) <==> OccursAt(s, p, 0)
    ensures StartsWith(s, p) ==> Find(s, p) == Some(0)
  {
    if |p| <= |s| {
      assert s[..|p|] == s[0..|p|];
    }
  }

  /** Whenever a longer marker `w` occurs, every prefix `p` of it occurs too (no later). */
  lemma {:induction false} ContainsPrefixOf(s: string, w: string, p: string)
    requires Contains(s, w) && StartsWith(w, p)
    ensures Contains(s, p)
    ensures Find(s, p).value <= Find(s, w).value
  {
    FindCorrect(s, w);
    FindCorrect(s, p);
    var i := Find(s, w).value;
    assert s[i..i + |w|] == w && w[..|p|] == p;
    assert forall k :: 0 <= k < |p| ==> s[i + k] == s[i..i + |w|][k] == w[k] == p[k];
    assert s[i..i + |p|] == p;
    assert OccursAt(s, p, i);
  }

  /** Python's `s.split(p, 1)[1]`: the text after the first `p` (see `SplitAfterFirst`). */
  function SplitAfter(s: string, p: string): string
    requires Contains(s, p)
  {
    FindCorrect(s, p);
    s[Find(s, p).value + |p|..]
  }

  lemma SplitAfterFirst(s: string, p: string)
    requires Contains(s, p)
    ensures exists i: nat :: IsFirstOccurrence(s, p, i) && SplitAfter(s, p) == s[i + |p|..]
  {
    FindCorrect(s, p);
    assert IsFirstOccurrence(s, p, Find(s, p).value);
  }

  /**
   * Python's `s.split(p, 1)[0]`: the text before the first `p`, or all of `s` when `p` is
   * absent (see `SplitBeforeFirst`).
   */
  function SplitBefore(s: string, p: string): string {
    FindCorrect(s, p);
    match Find(s, p)
    case Some(i) => s[..i]
    case None => s
  }

  lemma SplitBeforeFirst(s: string, p: string)
    ensures !Contains(s, p) ==> SplitBefore(s, p) == s
    ensures Contains(s, p) ==> exists i: nat :: IsFirstOccurrence(s, p, i) && SplitBefore(s, p) == s[..i]
  {
    FindCorrect(s, p);
    if Contains(s, p) {
      assert IsFirstOccurrence(s, p, Find(s, p).value);
    }
  }

  /** An occurrence inside the prefix `s[..i]` is an occurrence in `s` ending by `i`. */
  lemma OccursInPrefix(s: string, i: nat, p: string, j: nat)
    requires i <= |s| && OccursAt(s[..i], p, j)
    ensures OccursAt(s, p, j) && j + |p| <= i
  {
    assert forall k :: j <= k < j + |p| ==> s[k] == s[..i][k];
    assert s[j..j + |p|] == s[..i][j..j + |p|];
  }

  /** Cutting `s` before the first `p` leaves a string in which `p` does not occur. */
  lemma SplitBeforeRemovesMarker(s: string, p: string)
    requires p != []
    ensures !Contains(SplitBefore(s, p), p)
  {
    var r := SplitBefore(s, p);
    FindCorrect(s, p);
    if Contains(s, p) {
      var i := Find(s, p).value;
      assert r == s[..i];
      forall j: nat ensures !OccursAt(r, p, j) {
        if OccursAt(r, p, j) {
          OccursInPrefix(s, i, p, j);
        }
      }
    }
    ContainsIff(r, p);
  }

  /** Python's `s.replace(" ", "+")`. */
  function ReplaceSpaces(s: string): (r: string)
    ensures |r| == |s|
    ensures ' ' !in r
    ensures ' ' !in s ==> r == s
    ensures forall k :: 0 <= k < |s| && s[k] != ' ' ==> r[k] == s[k]
    ensures forall k :: 0 <= k < |s| && s[k] == ' ' ==> r[k] == '+'
  {
    seq(|s|, k requires 0 <= k < |s| => if s[k] == ' ' then '+' else s[k])
  }

  predicate IsHexDigit(c: char) {
    ('0' <= c <= '9') || ('a' <= c <= 'f') || ('A' <= c <= 'F')
  }

  function HexValue(c: char): (v: nat)
    requires IsHexDigit(c)
    ensures v < 16
  {
    if '0' <= c <= '9' then c as int - '0' as int
    else if 'a' <= c <= 'f' then c as int - 'a' as int + 10
    else c as int - 'A' as int + 10
  }

  /** A well-formed escape `%XX` starts at index `i` of `s`. */
  predicate EscapeAt(s: string, i: nat) {
    i + 3 <= |s| && s[i] == '%' && IsHexDigit(s[i + 1]) && IsHexDigit(s[i + 2])
  }

  /**
   * Percent-decoding as `urllib.parse.unquote` does it for escapes of code points
   * below 0x80: every well-formed `%XX` becomes the character with code 0xXX, and a
   * `%` not followed by two hexadecimal digits is kept as it is.
   */
  function PercentDecode(s: string): (r: string)
    decreases |s|
    ensures |r| <= |s|
    ensures '%' !in s ==> r == s
  {
    if EscapeAt(s, 0) then
      [(16 * HexValue(s[1]) + HexValue(s[2])) as char] + PercentDecode(s[3..])
    else if s == [] then []
    else [s[0]] + PercentDecode(s[1..])
  }

  /** Decoding keeps the length of the text exactly when it holds no well-formed escape. */
  lemma {:induction false} PercentDecodeShrinks(s: string)
    ensures |PercentDecode(s)| == |s| <==> forall i: nat :: !EscapeAt(s, i)
  {
    if EscapeAt(s, 0) {
      PercentDecodeShrinks(s[3..]);
    } else if s != [] {
      PercentDecodeShrinks(s[1..]);
      forall i: nat | EscapeAt(s[1..], i) ensures EscapeAt(s, i + 1) { }
      forall i: nat | EscapeAt(s, i) ensures i > 0 && EscapeAt(s[1..], i - 1) { }
    }
  }

  /** Text without a well-formed escape comes back unchanged: a stray `%` is kept in place. */
  lemma {:induction false} PercentDecodeNoEscape(s: string)
    requires forall i: nat :: !EscapeAt(s, i)
    ensures PercentDecode(s) == s
  {
    if s != [] {
      assert !EscapeAt(s, 0);
      forall i: nat ensures !EscapeAt(s[1..], i) {
        assert !EscapeAt(s, i + 1);
      }
      PercentDecodeNoEscape(s[1..]);
      assert s == [s[0]] + s[1..];
    }
  }

  /** The upper-case hexadecimal digit of a value below 16, as `urllib.parse.quote` writes it. */
  function HexDigit(v: nat): (c: char)
    requires v < 16
    ensures IsHexDigit(c) && HexValue(c) == v
  {
    if v < 10 then ('0' as int + v) as char else ('A' as int + v - 10) as char
  }

  /** Every character is below 0x80, where one escape stands for one character. */
  predicate IsAscii(s: string) {
    forall i :: 0 <= i < |s| ==> (s[i] as int) < 0x80
  }

  /** Every character as a `%XX` escape, as `quote(s, safe="")` writes characters below 0x80. */
  function PercentEncode(s: string): (r: string)
    requires IsAscii(s)
    decreases |s|
    ensures |r| == 3 * |s|
  {
    if s == [] then []
    else
      var c := s[0] as int;
      ['%', HexDigit(c / 16), HexDigit(c % 16)] + PercentEncode(s[1..])
  }

  /** An escape at the front decodes to its character, ahead of the decoded rest. */
  lemma DecodeEscape(hi: char, lo: char, rest: string)
    requires IsHexDigit(hi) && IsHexDigit(lo)
    ensures PercentDecode(['%', hi, lo] + rest) == [(16 * HexValue(hi) + HexValue(lo)) as char] + PercentDecode(rest)
  {
    var e := ['%', hi, lo] + rest;
    assert e[0] == '%' && e[1] == hi && e[2] == lo && e[3..] == rest;
  }

  /** Decoding undoes encoding: each escape is read back as the character it was written for. */
  lemma {:induction false} PercentDecodeEncode(s: string)
    requires IsAscii(s)
    decreases |s|
    ensures PercentDecode(PercentEncode(s)) == s
  {
    if s != [] {
      var c := s[0] as int;
      var hi, lo := HexDigit(c / 16), HexDigit(c % 16);
      var rest := PercentEncode(s[1..]);
      assert PercentEncode(s) == ['%', hi, lo] + rest;
      DecodeEscape(hi, lo, rest);
      assert (16 * HexValue(hi) + HexValue(lo)) as char == s[0];
      PercentDecodeEncode(s[1..]);
      assert [s[0]] + s[1..] == s;
    }
  }
}

