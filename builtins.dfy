/**
 The Python built-ins the converter leans on, stated over Dafny strings:
 `str.split()` and `str.strip()` with no argument, slicing with clamped
 bounds, and `float()` on the plain decimal strings that hold ENSDF energies.
 `float()` is modelled with exact rationals; the rounding of binary floating
 point is not part of the model.
 */
module Builtins {

  /** Python's `str.isspace()` for one character: the separators of `split()` and `strip()`. */
  predicate IsSpace(c: char) {
    c == ' ' || ('\U{9}' <= c <= '\U{d}') || ('\U{1c}' <= c <= '\U{1f}')
    || c == '\U{85}' || c == '\U{a0}' || c == '\U{1680}' || ('\U{2000}' <= c <= '\U{200a}')
    || c == '\U{2028}' || c == '\U{2029}' || c == '\U{202f}' || c == '\U{205f}' || c == '\U{3000}'
  }

  /** A field as `split()` produces it: non-empty and free of white space. */
  predicate IsWord(w: string) {
    |w| > 0 && forall i :: 0 <= i < |w| ==> !IsSpace(w[i])
  }

  /** Length of the run of non-space characters that starts `s`. */
  function WordLength(s: string): (n: nat)
    ensures n <= |s|
    ensures forall i :: 0 <= i < n ==> !IsSpace(s[i])
    ensures n == |s| || IsSpace(s[n])
    decreases |s|
  {
    if s == [] || IsSpace(s[0]) then 0 else 1 + WordLength(s[1..])
  }

  /** `s.split()`: the maximal runs of non-space characters, in order. */
  function Split(s: string): (words: seq<string>)
    ensures forall w :: w in words ==> IsWord(w)
    decreases |s|
  {
    if s == [] then []
    else if IsSpace(s[0]) then Split(s[1..])
    else
      var n := WordLength(s);
      [s[..n]] + Split(s[n..])
  }

  /** The number of white-space characters that start `s`. */
  function LeadingSpaces(s: string): (n: nat)
    ensures n <= |s|
    ensures forall i :: 0 <= i < n ==> IsSpace(s[i])
    ensures n == |s| || !IsSpace(s[n])
    decreases |s|
  {
    if s == [] || !IsSpace(s[0]) then 0 else 1 + LeadingSpaces(s[1..])
  }

  /** The number of white-space characters that end `s`. */
  function TrailingSpaces(s: string): (n: nat)
    ensures n <= |s|
    ensures forall i :: |s| - n <= i < |s| ==> IsSpace(s[i])
    ensures n == |s| || !IsSpace(s[|s| - n - 1])
    decreases |s|
  {
    if s == [] || !IsSpace(s[|s| - 1]) then 0 else 1 + TrailingSpaces(s[..|s| - 1])
  }

  /** Every character of `s` in front of index `a` and from index `b` on is white space. */
  predicate SpaceOutside(s: string, a: nat, b: nat) {
    && (forall i :: 0 <= i < a && i < |s| ==> IsSpace(s[i]))
    && (forall i :: b <= i < |s| ==> IsSpace(s[i]))
  }

  /**
   `s.strip()`: `s` without its leading and its trailing white space. The
   result is a slice of `s` with only white space around it, and a non-empty
   result neither starts nor ends with white space.
   */
  function Strip(s: string): (r: string)
    ensures exists a, b :: 0 <= a <= b <= |s| && r == s[a..b] && SpaceOutside(s, a, b)
    ensures |r| > 0 ==> !IsSpace(r[0]) && !IsSpace(r[|r| - 1])
  {
    var a := LeadingSpaces(s);
    var b := |s| - TrailingSpaces(s[a..]);
    TrailingFrom(s, a);
    var r := s[a..b];
    assert SpaceOutside(s, a, b);
    assert |r| > 0 ==> r[0] == s[a] && r[|r| - 1] == s[b - 1];
    r
  }

  /** The trailing white space of `s[a..]`, counted back from the end of `s`. */
  lemma TrailingFrom(s: string, a: nat)
    requires a <= |s|
    ensures var b := |s| - TrailingSpaces(s[a..]);
      && a <= b
      && (forall i :: b <= i < |s| ==> IsSpace(s[i]))
      && (b == a || !IsSpace(s[b - 1]))
  {
    var t := s[a..];
    var b := |s| - TrailingSpaces(t);
    forall i | b <= i < |s|
      ensures IsSpace(s[i])
    {
      assert s[i] == t[i - a];
    }
    if b > a {
      assert s[b - 1] == t[|t| - TrailingSpaces(t) - 1];
    }
  }

  /** `s[lo:hi]` for non-negative bounds: Python clamps both bounds to the length. */
  function Slice(s: string, lo: nat, hi: nat): (r: string)
    ensures |r| <= |s|
    ensures lo <= hi <= |s| ==> r == s[lo..hi]
    ensures lo <= |s| <= hi ==> r == s[lo..]
    ensures |s| <= lo ==> r == []
  {
    var a := if lo < |s| then lo else |s|;
    var b := if hi < |s| then hi else |s|;
    if a <= b then s[a..b] else []
  }

  /** Concatenation of strings is associative. */
  lemma ConcatAssoc(a: string, b: string, c: string)
    ensures (a + b) + c == a + (b + c)
  {
  }

  /** The first `i + 1` strings are the first `i` and then string `i`. */
  lemma TakeSnoc(s: seq<string>, i: nat)
    requires i < |s|
    ensures s[..i + 1] == s[..i] + [s[i]]
    ensures s[..i + 1][..i] == s[..i]
  {
  }

  /** A one-character tag in front of `s` comes off again with `[1..]`. */
  lemma TagTail(tag: string, s: string)
    requires |tag| == 1
    ensures (tag + s)[0] == tag[0] && (tag + s)[1..] == s
  {
  }

  /** Being a prefix is transitive. */
  lemma PrefixTrans(a: seq<string>, b: seq<string>, c: seq<string>)
    requires a <= b && b <= c
    ensures a <= c
  {
    assert a == b[..|a|] && b == c[..|b|];
    assert c[..|b|][..|a|] == c[..|a|];
  }

  /** What comes after a sequence keeps it as a prefix. */
  lemma PrefixAppend(a: seq<string>, b: seq<string>)
    ensures a <= a + b
  {
    assert (a + b)[..|a|] == a;
  }

  /** A slice reads only the characters between its bounds. */
  lemma SliceAgree(s: string, t: string, lo: nat, hi: nat)
    requires |s| == |t|
    requires forall i :: lo <= i < hi && i < |s| ==> s[i] == t[i]
    ensures Slice(s, lo, hi) == Slice(t, lo, hi)
  {
    if lo <= hi && lo < |s| {
      var b := if hi < |s| then hi else |s|;
      assert forall i :: 0 <= i < b - lo ==> s[lo..b][i] == t[lo..b][i];
    }
  }

  /** The part of `s` in front of its first '.', or all of `s` when it has none. */
  function BeforeDot(s: string): (r: string)
    ensures r <= s
    ensures '.' !in r
    ensures |r| == |s| || s[|r|] == '.'
    decreases |s|
  {
    if s == [] || s[0] == '.' then [] else [s[0]] + BeforeDot(s[1..])
  }

  predicate IsDigit(c: char) {
    '0' <= c <= '9'
  }

  /** `s` without a leading sign. */
  function Unsigned(s: string): string {
    if |s| > 0 && (s[0] == '+' || s[0] == '-') then s[1..] else s
  }

  /**
   The strings `float()` is modelled on: an optional sign, digits, and at most
   one '.', with at least one digit ("12", "12.", ".5", "-0.25").
   */
  predicate IsDecimal(s: string) {
    DecimalBody(Unsigned(s), false, false)
  }

  /** `u` finishes a numeral in which a '.' (`dotted`) and a digit (`digits`) have been seen so far. */
  predicate DecimalBody(u: string, dotted: bool, digits: bool)
    decreases |u|
  {
    if u == [] then digits
    else if IsDigit(u[0]) then DecimalBody(u[1..], dotted, true)
    else u[0] == '.' && !dotted && DecimalBody(u[1..], true, digits)
  }

  /** The value of a digit character. */
  function Digit(c: char): int {
    c as int - '0' as int
  }

  /** The value of the digits `ds` written after a decimal point: ".25" is 0.25. */
  function FractionValue(ds: string): real
    decreases |ds|
  {
    if ds == [] then 0.0 else (Digit(ds[0]) as real + FractionValue(ds[1..])) / 10.0
  }

  /** The value of the unsigned numeral `u` read after the digits whose value is `whole`. */
  function Magnitude(u: string, whole: int): real
    decreases |u|
  {
    if u == [] then whole as real
    else if u[0] == '.' then whole as real + FractionValue(u[1..])
    else Magnitude(u[1..], 10 * whole + Digit(u[0]))
  }

  /**
   `float(s)` as an exact rational. It is meaningful on the strings where
   IsDecimal holds; on any other string `float()` raises, and the callers that
   stand for code calling `float()` require IsDecimal.
   */
  function Val(s: string): real {
    var magnitude := Magnitude(Unsigned(s), 0);
    if |s| > 0 && s[0] == '-' then -magnitude else magnitude
  }

  /** A string that starts with a letter is no decimal: `float()` would raise on it. */
  lemma {:induction false} LetterIsNotDecimal(s: string)
    requires |s| > 0 && 'a' <= s[0] <= 'z'
    ensures !IsDecimal(s)
  {
    assert Unsigned(s) == s;
  }
}
