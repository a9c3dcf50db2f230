/** What sizes and ranges are worth as they are written. */
module RangeText {
  import opened Wrappers
  import opened Words
  import opened PageWindow
  import opened Numerals
  import opened Routing
  import opened LineShapes
  import opened Sizes

  // ---- Sizes ----

  /** A number with a base that its first characters announce: decimal, "0x" or a leading '0'. */
  datatype Numeral = Decimal(digits: string) | Hexadecimal(x: char, digits: string) | Octal(digits: string)

  function Written(m: Numeral): string {
    match m
    case Decimal(digits) => digits
    case Hexadecimal(x, digits) => ['0', x] + digits
    case Octal(digits) => "0" + digits
  }

  function Base(m: Numeral): nat {
    match m
    case Decimal(_) => 10
    case Hexadecimal(_, _) => 16
    case Octal(_) => 8
  }

  predicate IsNumeral(m: Numeral) {
    && AllDigits(m.digits, Base(m))
    && match m
       case Decimal(digits) => digits != "" && digits[0] != '0'
       case Hexadecimal(x, digits) => (x == 'x' || x == 'X') && digits != ""
       case Octal(_) => true
  }

  /** What it is worth: its digits in its base, but at most 2^64 - 1. */
  function Worth(m: Numeral): Word {
    Saturated(Fold(m.digits, Base(m), 0))
  }

  /** A character that cannot belong to a numeral before it. */
  predicate Terminates(rest: string, m: Numeral) {
    rest == "" || (DigitValue(rest[0]) >= Base(m) && (m == Octal("") ==> Lower(rest[0]) != 'x'))
  }

  /** The number that is read, without a limit, and what follows it. */
  predicate IsReadAs(text: string, m: Numeral, rest: string) {
    var (base, digits) := NumberPart(text, 0);
    StartsNumber(digits, base) && ReadDigits(digits, base, 0) == (Fold(m.digits, Base(m), 0), rest)
  }

  lemma DecimalIsRead(digits: string, rest: string)
    requires IsNumeral(Decimal(digits)) && Terminates(rest, Decimal(digits))
    ensures Strtoul(digits + rest, 0) == (Worth(Decimal(digits)), rest)
    ensures IsReadAs(digits + rest, Decimal(digits), rest)
  {
    var s := digits + rest;
    ReadThrough(digits, rest, 10, 0);
    assert s[0] == digits[0] && DigitValue(digits[0]) < 10;
    hide ReadDigits, Fold;
    assert SkipSpace(s) == s && NumberPart(s, 0) == (10, s);
  }

  lemma HexadecimalIsRead(x: char, digits: string, rest: string)
    requires IsNumeral(Hexadecimal(x, digits)) && Terminates(rest, Hexadecimal(x, digits))
    ensures Strtoul(['0', x] + digits + rest, 0) == (Worth(Hexadecimal(x, digits)), rest)
    ensures IsReadAs(['0', x] + digits + rest, Hexadecimal(x, digits), rest)
  {
    var s, tail := ['0', x] + digits + rest, digits + rest;
    ReadThrough(digits, rest, 16, 0);
    assert s[2..] == tail && s[2] == digits[0] && tail[0] == digits[0] && DigitValue(digits[0]) < 16;
    hide ReadDigits, Fold;
    assert SkipSpace(s) == s && HexPrefix(s) && NumberPart(s, 0) == (16, tail);
  }

  lemma OctalIsRead(digits: string, rest: string)
    requires IsNumeral(Octal(digits)) && Terminates(rest, Octal(digits))
    ensures Strtoul("0" + digits + rest, 0) == (Worth(Octal(digits)), rest)
    ensures IsReadAs("0" + digits + rest, Octal(digits), rest)
  {
    var s, all := "0" + digits + rest, "0" + digits;
    assert s == all + rest && AllDigits(all, 8);
    ReadThrough(all, rest, 8, 0);
    assert Fold(all, 8, 0) == Fold(digits, 8, 0) by { assert all[1..] == digits; }
    hide ReadDigits, Fold;
    assert |s| > 1 ==> s[1] == if digits == "" then rest[0] else digits[0];
    assert SkipSpace(s) == s && !HexPrefix(s) && NumberPart(s, 0) == (8, s);
  }

  lemma NumeralIsRead(m: Numeral, rest: string)
    requires IsNumeral(m) && Terminates(rest, m)
    ensures Strtoul(Written(m) + rest, 0) == (Worth(m), rest)
    ensures IsReadAs(Written(m) + rest, m, rest)
  {
    hide Strtoul, Terminates, IsNumeral, Worth, IsReadAs;
    match m
    case Decimal(digits) => DecimalIsRead(digits, rest);
    case Hexadecimal(x, digits) => HexadecimalIsRead(x, digits, rest);
    case Octal(digits) => OctalIsRead(digits, rest);
  }

  /** A sign: '+' changes nothing, and '-' subtracts from 2^64, unless the number was too large already. */
  lemma SignedNumeralIsRead(m: Numeral, rest: string)
    requires IsNumeral(m) && Terminates(rest, m)
    ensures Strtoul("+" + (Written(m) + rest), 0) == (Worth(m), rest)
    ensures var n := Fold(m.digits, Base(m), 0);
      Strtoul("-" + (Written(m) + rest), 0) ==
        (if n == 0 then 0 else if n < 0x1_0000_0000_0000_0000 then 0x1_0000_0000_0000_0000 - n else 0xFFFF_FFFF_FFFF_FFFF, rest)
  {
    NumeralIsRead(m, rest);
    DigitInFront(m, rest);
    var u := Written(m) + rest;
    hide ReadDigits, Fold, Written, IsNumeral, Terminates;
    assert ("+" + u)[1..] == u && ("-" + u)[1..] == u;
    assert SkipSpace("+" + u) == "+" + u && SkipSpace("-" + u) == "-" + u && SkipSpace(u) == u;
    hide NumberPart, SkipSpace;
  }

  lemma DigitInFront(m: Numeral, rest: string)
    requires IsNumeral(m) && Terminates(rest, m)
    ensures var u := Written(m) + rest; u != "" && '0' <= u[0] <= '9'
  {
    hide Fold;
  }

  /** A numeral alone is its worth. */
  lemma PlainSize(m: Numeral, pagesize: Word)
    requires IsNumeral(m)
    ensures SizeKmgp(Written(m), pagesize) == Worth(m)
  {
    hide Strtoul, Worth, IsNumeral;
    NumeralIsRead(m, "");
    assert Written(m) + "" == Written(m);
  }

  /** With a suffix it is multiplied modulo 2^64, whatever follows the suffix; any other character makes it an error. */
  lemma SizeWithSuffix(m: Numeral, c: char, junk: string, pagesize: Word)
    requires IsNumeral(m) && Terminates([c] + junk, m)
    ensures SizeKmgp(Written(m) + ([c] + junk), pagesize) ==
      if c == 'k' || c == 'K' then Worth(m) * 1024 % 0x1_0000_0000_0000_0000
      else if c == 'm' || c == 'M' then Worth(m) * (1024 * 1024) % 0x1_0000_0000_0000_0000
      else if c == 'g' || c == 'G' then Worth(m) * (1024 * 1024 * 1024) % 0x1_0000_0000_0000_0000
      else if c == 'p' || c == 'P' then Worth(m) * pagesize % 0x1_0000_0000_0000_0000
      else 0xFFFF_FFFF_FFFF_FFFF
  {
    hide Strtoul, Worth, IsNumeral, ShiftLeft, Pow2;
    NumeralIsRead(m, [c] + junk);
    KiloScales();
    ShiftIsMultiplication(Worth(m), 10);
    ShiftIsMultiplication(Worth(m), 20);
    ShiftIsMultiplication(Worth(m), 30);
  }

  // ---- Ranges ----

  /** A word of an argument list. */
  predicate IsWord(w: string) {
    w != "" && forall k | 0 <= k < |w| :: !White(w[k])
  }

  lemma {:induction false} WordIsRead(w: string, rest: string)
    requires (forall k | 0 <= k < |w| :: !White(w[k])) && (rest == "" || White(rest[0]))
    ensures FirstWord(w + rest) == (w, SkipWhite(rest))
  {
    if w == "" {
      assert w + rest == rest;
    } else {
      WordIsRead(w[1..], rest);
      assert (w + rest)[1..] == w[1..] + rest && (w + rest)[0] == w[0] && [w[0]] + w[1..] == w;
    }
  }

  /**
   * `<offset> <length>`: in this order, with '*' for a length of 0, and the text after them is left. It is bad if and only if
   * one of them is the error value.
   */
  lemma RangeIsRead(a: string, gap: string, b: string, rest: string, pagesize: Word)
    requires IsWord(a) && '0' <= a[0] <= '9' && IsWord(b) && Blank(gap) && gap != "" && (rest == "" || White(rest[0]))
    ensures var offset, length := SizeKmgp(a, pagesize), if b[0] == '*' then 0 else SizeKmgp(b, pagesize);
      GetRange(a + (gap + (b + rest)), pagesize) ==
        if offset == 0xFFFF_FFFF_FFFF_FFFF || length == 0xFFFF_FFFF_FFFF_FFFF then Bad
        else Given(Range(offset, length), SkipWhite(rest))
  {
    hide SizeKmgp, Strtoul;
    var more := gap + (b + rest);
    assert White(more[0]);
    WordIsRead(a, more);
    SkipBlank(gap, b + rest);
    assert SkipWhite(b + rest) == b + rest;
    WordIsRead(b, rest);
    assert (a + more)[0] == a[0];
  }

  /** An offset without a length is bad, and no digit in front is no range at all. */
  lemma RangeIsMissing(a: string, gap: string, pagesize: Word)
    requires IsWord(a) && Blank(gap)
    ensures GetRange(a + gap, pagesize) == if '0' <= a[0] <= '9' then Bad else Absent
  {
    hide SizeKmgp, Strtoul;
    WordIsRead(a, gap);
    SkipBlank(gap, "");
    assert gap + "" == gap && (a + gap)[0] == a[0];
  }

  /** Every text with a range in front is one of these two. */
  lemma RangeTextIs(args: string) returns (a: string, gap: string, b: string, rest: string)
    requires args != "" && '0' <= args[0] <= '9'
    ensures IsWord(a) && '0' <= a[0] <= '9' && Blank(gap)
    ensures if b == "" then rest == "" && args == a + gap
            else IsWord(b) && gap != "" && (rest == "" || White(rest[0])) && args == a + (gap + (b + rest))
  {
    var tail;
    a, tail := SplitWord(args);
    gap, b := SplitBlank(tail);
    rest := "";
    if b != "" {
      b, rest := SplitWord(b);
    }
  }

  lemma {:induction false} SplitWord(s: string) returns (w: string, rest: string)
    ensures s == w + rest && (forall k | 0 <= k < |w| :: !White(w[k])) && (rest == "" || White(rest[0]))
    ensures s != "" && !White(s[0]) ==> w != "" && w[0] == s[0]
  {
    if s != "" && !White(s[0]) {
      w, rest := SplitWord(s[1..]);
      w := [s[0]] + w;
    } else {
      w, rest := "", s;
    }
  }

  // ---- where ----

  /** The window of the default range: from the start, 64 pages or all there is. */
  lemma DefaultWindow(segLength: Word, p: Word)
    requires PowerOfTwo(p) && 64 * p < 0x1_0000_0000_0000_0000 && segLength % p == 0 && 0 < segLength
    ensures Clip(LocationRange(Range(0, 0xFFFF_FFFF_FFFF_FFFF), p), segLength, p) ==
      Some(Region(0, if segLength < 64 * p then segLength else 64 * p))
  {
    hide PowerOfTwo, RoundUp, RoundDown, Clip;
    assert p > 0 by { WordIsMultiple(p); }
    DivModUnique(64 * p, p, 64, 0);
    ClipIsExact(Range(0, 64 * p), segLength, p);
  }

  /** `where` shows the default window if no range is given, and else exactly the range. */
  lemma WhereShows(args: string, p: Word)
    ensures args == "" || !IsDigit(args[0]) ==> WhereRange(args, p) == Some(Range(0, 0xFFFF_FFFF_FFFF_FFFF))
    ensures args != "" && IsDigit(args[0]) ==>
      match GetRange(args, p)
      case Given(range, _) => WhereRange(args, p) == Some(range) && LocationRange(range, p) == range
      case _ => WhereRange(args, p).None?
  {
    hide SizeKmgp, FirstWord;
  }
}
