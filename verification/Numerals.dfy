/** strtoul() of the C library on strings. */
module Numerals {
  import opened Words

  predicate IsDigit(c: char) { '0' <= c <= '9' }

  predicate IsSpace(c: char) { c == ' ' || '\t' <= c <= '\r' }

  function Lower(c: char): char {
    if 'A' <= c <= 'Z' then c - 'A' + 'a' else c
  }

  /** The value of a digit in bases up to 36, or 36. */
  function DigitValue(c: char): (v: nat)
    ensures v <= 36
  {
    if IsDigit(c) then (c - '0') as nat
    else if 'a' <= Lower(c) <= 'z' then 10 + (Lower(c) - 'a') as nat
    else 36
  }

  predicate StartsNumber(s: string, base: nat) {
    s != "" && DigitValue(s[0]) < base
  }

  /** The digits at the front, read after `acc`: their value, without a limit, and what follows them. */
  function ReadDigits(s: string, base: nat, acc: nat): (r: (nat, string))
    ensures |r.1| <= |s| && (StartsNumber(s, base) ==> |r.1| < |s|)
    ensures r.1 != "" ==> DigitValue(r.1[0]) >= base
  {
    if !StartsNumber(s, base) then (acc, s) else ReadDigits(s[1..], base, acc * base + DigitValue(s[0]))
  }

  function SkipSpace(s: string): (r: string)
    ensures |r| <= |s|
  {
    if s != "" && IsSpace(s[0]) then SkipSpace(s[1..]) else s
  }

  predicate HexPrefix(s: string) {
    |s| > 2 && s[0] == '0' && Lower(s[1]) == 'x' && DigitValue(s[2]) < 16
  }

  /** The base to use and the text of the number proper; base 0 goes by the prefix. */
  function NumberPart(s: string, base: nat): (r: (nat, string))
    ensures |r.1| <= |s|
  {
    if (base == 0 || base == 16) && HexPrefix(s) then (16, s[2..])
    else if base != 0 then (base, s)
    else if s != "" && s[0] == '0' then (8, s)
    else (10, s)
  }

  /** The result for a number that may be too large. */
  function Saturated(n: nat): Word {
    if n < W64 then n else W64 - 1
  }

  /** Value and rest; without a number the value is 0 and nothing is consumed. Too large values saturate. */
  function Strtoul(s: string, base: nat): (r: (Word, string))
    ensures |r.1| <= |s|
  {
    var t := SkipSpace(s);
    var negative := t != "" && t[0] == '-';
    var u := if t != "" && (t[0] == '-' || t[0] == '+') then t[1..] else t;
    var (b, digits) := NumberPart(u, base);
    if !StartsNumber(digits, b) then (0, s)
    else
      var (n, rest) := ReadDigits(digits, b, 0);
      (if n < W64 && negative && n != 0 then W64 - n else Saturated(n), rest)
  }

  /** The value of a text that consists of digits, read after `acc`. */
  function Fold(s: string, base: nat, acc: nat): nat {
    if s == "" then acc else Fold(s[1..], base, acc * base + DigitValue(s[0]))
  }

  predicate AllDigits(s: string, base: nat) {
    forall i | 0 <= i < |s| :: DigitValue(s[i]) < base
  }

  lemma {:induction false} ReadThrough(s: string, rest: string, base: nat, acc: nat)
    requires AllDigits(s, base) && !StartsNumber(rest, base)
    ensures ReadDigits(s + rest, base, acc) == (Fold(s, base, acc), rest)
    decreases |s|
  {
    if s == "" {
      assert s + rest == rest;
    } else {
      ReadThrough(s[1..], rest, base, acc * base + DigitValue(s[0]));
      assert (s + rest)[1..] == s[1..] + rest;
    }
  }

  lemma {:induction false} FoldAppend(s: string, c: char, base: nat, acc: nat)
    ensures Fold(s + [c], base, acc) == Fold(s, base, acc) * base + DigitValue(c)
    decreases |s|
  {
    if s == "" {
      assert s + [c] == [c];
    } else {
      FoldAppend(s[1..], c, base, acc * base + DigitValue(s[0]));
      assert (s + [c])[1..] == s[1..] + [c];
    }
  }
}
