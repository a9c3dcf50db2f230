/** CPU affinity masks: little-endian words of 32 bits inside, big-endian comma-separated hexadecimal chunks outside. */
module CpuMask {
  import opened Wrappers
  import opened Words
  import opened Numerals

  // ---- Numbers denoted by words and by chunks ----

  predicate AreWords32(ws: seq<nat>) {
    forall i | 0 <= i < |ws| :: ws[i] < W32
  }

  /** Word 0 is least significant. */
  function LittleEndian(ws: seq<nat>): nat {
    if ws == [] then 0 else ws[0] + W32 * LittleEndian(ws[1..])
  }

  /** Chunk 0 is most significant. */
  function BigEndian(cs: seq<nat>): nat {
    if cs == [] then 0 else W32 * BigEndian(cs[..|cs| - 1]) + cs[|cs| - 1]
  }

  /** Without leading zero chunks. */
  function Strip(cs: seq<nat>): (r: seq<nat>)
    ensures r == [] || r[0] != 0
    ensures |r| <= |cs|
  {
    if cs != [] && cs[0] == 0 then Strip(cs[1..]) else cs
  }

  /** The chunks in reverse order, padded with zero words to `n`. */
  function ToWords(cs: seq<nat>, n: nat): (ws: seq<nat>)
    requires |cs| <= n
    ensures |ws| == n
    ensures forall i | 0 <= i < n :: ws[i] == if i < |cs| then cs[|cs| - 1 - i] else 0
  {
    seq(n, i requires 0 <= i => if i < |cs| then cs[|cs| - 1 - i] else 0)
  }

  function Reverse(ws: seq<nat>): (r: seq<nat>)
    ensures |r| == |ws| && forall i | 0 <= i < |r| :: r[i] == ws[|ws| - 1 - i]
  {
    if ws == [] then [] else Reverse(ws[1..]) + [ws[0]]
  }

  lemma {:induction false} ZerosAreNothing(n: nat)
    ensures LittleEndian(ToWords([], n)) == 0
  {
    if n > 0 {
      ZerosAreNothing(n - 1);
      assert ToWords([], n)[1..] == ToWords([], n - 1);
    }
  }

  /** Reversing the order of the words keeps the number. */
  lemma {:induction false} SameNumber(cs: seq<nat>, n: nat)
    requires |cs| <= n
    ensures LittleEndian(ToWords(cs, n)) == BigEndian(cs)
  {
    if cs == [] {
      ZerosAreNothing(n);
    } else {
      SameNumber(cs[..|cs| - 1], n - 1);
      assert ToWords(cs, n)[1..] == ToWords(cs[..|cs| - 1], n - 1);
    }
  }

  lemma {:induction false} LeadingZero(cs: seq<nat>)
    requires cs != [] && cs[0] == 0
    ensures BigEndian(cs) == BigEndian(cs[1..])
  {
    if |cs| > 1 {
      LeadingZero(cs[..|cs| - 1]);
      assert cs[..|cs| - 1][1..] == cs[1..][..|cs| - 2];
    } else {
      assert cs[..0] == [];
    }
  }

  /** Leading zero chunks do not change the number. */
  lemma {:induction false} StripKeepsNumber(cs: seq<nat>)
    ensures BigEndian(Strip(cs)) == BigEndian(cs)
  {
    if cs != [] && cs[0] == 0 {
      LeadingZero(cs);
      StripKeepsNumber(cs[1..]);
    }
  }

  // ---- Printing ----

  function HexDigit(v: nat): (c: char)
    requires v < 16
    ensures DigitValue(c) == v
  {
    if v < 10 then '0' + v as char else 'a' + (v - 10) as char
  }

  /** The low `n` hexadecimal digits. */
  function HexDigits(w: nat, n: nat): (s: string)
    ensures |s| == n
  {
    if n == 0 then "" else HexDigits(w / 16, n - 1) + [HexDigit(w % 16)]
  }

  /** "0x%8.8x" of a 32-bit word */
  function HexWord(w: nat): string {
    "0x" + HexDigits(w, 8)
  }

  predicate IsPrinted(c: char) { '0' <= c <= '9' || 'a' <= c <= 'f' }

  lemma {:induction false} HexDigitsArePrinted(w: nat, n: nat)
    ensures forall k | 0 <= k < n :: IsPrinted(HexDigits(w, n)[k])
  {
    if n > 0 { HexDigitsArePrinted(w / 16, n - 1); }
  }

  /** A chunk is "0x" and eight lower-case hexadecimal digits, zeros in front included. */
  lemma ChunkFormat(w: nat)
    ensures var s := HexWord(w);
      |s| == 10 && s[..2] == "0x" && forall k | 2 <= k < 10 :: '0' <= s[k] <= '9' || 'a' <= s[k] <= 'f'
  {
    HexDigitsArePrinted(w, 8);
  }

  /** From the highest word with a bit set down to word 0. */
  method ShowCpus(bits: array<nat>) returns (chunks: seq<nat>)
    ensures chunks == Strip(Reverse(bits[..]))
  {
    var any := 0;
    chunks := [];
    var i: int := bits.Length - 1;
    assert bits[..i + 1] == bits[..];
    while i >= 0
      invariant -1 <= i < bits.Length
      invariant any == 0 ==> chunks == [] && Strip(Reverse(bits[..i + 1])) == Strip(Reverse(bits[..]))
      invariant any > 0 ==> chunks + Reverse(bits[..i + 1]) == Strip(Reverse(bits[..]))
    {
      var word := bits[i];
      assert Reverse(bits[..i + 1]) == [word] + Reverse(bits[..i]);
      if word != 0 || any != 0 {
        any := any + 1;
        chunks := chunks + [word];
      } else {
        assert ([word] + Reverse(bits[..i]))[1..] == Reverse(bits[..i]);
      }
      i := i - 1;
    }
    assert bits[..0] == [];
  }

  // ---- Parsing ----

  /**
   * The chunks of a mask text. Leading zero chunks are ignored; a chunk has to start with '0' or have an 'x' second,
   * there may be at most `n`, and they are separated by commas.
   */
  function ParseChunks(text: string, chunks: seq<nat>, n: nat): (r: Option<seq<nat>>)
    ensures r.Some? && |chunks| <= n ==> |r.value| <= n
    decreases |text|
  {
    if text == "" then Some(chunks)
    else if text[0] != '0' && !(|text| > 1 && Lower(text[1]) == 'x') then None
    else if |chunks| >= n then None
    else
      var (value, next) := Strtoul(text, 16);
      var bits := value % W32;
      var more := WithChunk(chunks, bits);
      if next == "" then Some(more)
      else if next[0] != ',' then None
      else ParseChunks(next[1..], more, n)
  }

  lemma {:induction false} HexDigitsValue(w: nat, n: nat)
    requires w < Pow2(4 * n)
    ensures AllDigits(HexDigits(w, n), 16) && Fold(HexDigits(w, n), 16, 0) == w
    decreases n
  {
    if n > 0 {
      Pow2Split(4 * (n - 1), 4);
      assert Pow2(4) == 16;
      HexDigitsValue(w / 16, n - 1);
      FoldAppend(HexDigits(w / 16, n - 1), HexDigit(w % 16), 16, 0);
    }
  }

  function WithChunk(chunks: seq<nat>, bits: nat): seq<nat> {
    if chunks != [] || bits != 0 then chunks + [bits] else chunks
  }

  /** The digits of a numeral, without "0x". */
  function Digits(s: string): string {
    if HexPrefix(s) then s[2..] else s
  }

  /** A hexadecimal numeral of any length that starts with '0', as every one with "0x" does. */
  predicate IsNumeral(s: string) {
    s != "" && s[0] == '0' && AllDigits(Digits(s), 16)
  }

  /** The number that a numeral denotes, without a limit. */
  function Value(s: string): nat {
    Fold(Digits(s), 16, 0)
  }

  /** What is left of it in 32 bits, after strtoul() has saturated. */
  function Bits(s: string): nat {
    Saturated(Value(s)) % W32
  }

  predicate AreNumerals(numerals: seq<string>) {
    forall i | 0 <= i < |numerals| :: IsNumeral(numerals[i])
  }

  /** Numerals joined by commas, with or without a comma after the last one. */
  function MaskText(numerals: seq<string>, comma: bool): string
    decreases |numerals|, 1
  {
    if numerals == [] then "" else numerals[0] + MaskTail(numerals, comma)
  }

  function MaskTail(numerals: seq<string>, comma: bool): string
    requires numerals != []
    decreases |numerals|, 0
  {
    if |numerals| == 1 && !comma then "" else "," + MaskText(numerals[1..], comma)
  }

  function Values(numerals: seq<string>): seq<nat> {
    seq(|numerals|, i requires 0 <= i < |numerals| => Value(numerals[i]))
  }

  function AllBits(numerals: seq<string>): seq<nat> {
    seq(|numerals|, i requires 0 <= i < |numerals| => Bits(numerals[i]))
  }

  lemma PrefixOfNumeral(s: string, rest: string)
    requires IsNumeral(s) && (rest == "" || rest[0] == ',')
    ensures HexPrefix(s + rest) == HexPrefix(s) && Digits(s) != ""
    ensures (if HexPrefix(s) then (s + rest)[2..] else s + rest) == Digits(s) + rest
  {
    if |s| == 2 && Lower(s[1]) == 'x' {
      assert DigitValue(Digits(s)[1]) < 16;
    }
    if HexPrefix(s) {
      assert (s + rest)[2..] == s[2..] + rest;
    }
  }

  /** strtoul() reads a numeral up to the comma or the end. */
  lemma ReadNumeral(s: string, rest: string)
    requires IsNumeral(s) && (rest == "" || rest[0] == ',')
    ensures Strtoul(s + rest, 16) == (Saturated(Value(s)), rest)
  {
    PrefixOfNumeral(s, rest);
    var digits := Digits(s);
    assert (digits + rest)[0] == digits[0] && DigitValue(digits[0]) < 16;
    assert !StartsNumber(rest, 16);
    ReadThrough(digits, rest, 16, 0);
    hide ReadDigits, Fold, Digits, HexPrefix;
    assert SkipSpace(s + rest) == s + rest && (s + rest)[0] == '0';
  }

  lemma ParseStep(text: string, value: Word, tail: string, chunks: seq<nat>, n: nat)
    requires text != "" && text[0] == '0' && Strtoul(text, 16) == (value, tail) && (tail == "" || tail[0] == ',')
    ensures ParseChunks(text, chunks, n) ==
      if |chunks| >= n then None
      else if tail == "" then Some(WithChunk(chunks, value % W32))
      else ParseChunks(tail[1..], WithChunk(chunks, value % W32), n)
  {
    hide Strtoul, WithChunk;
  }

  lemma ParseOne(numerals: seq<string>, comma: bool, chunks: seq<nat>, n: nat)
    requires AreNumerals(numerals) && numerals != []
    ensures ParseChunks(MaskText(numerals, comma), chunks, n) ==
      if |chunks| >= n then None
      else if |numerals| == 1 && !comma then Some(WithChunk(chunks, Bits(numerals[0])))
      else ParseChunks(MaskText(numerals[1..], comma), WithChunk(chunks, Bits(numerals[0])), n)
  {
    hide Strtoul, WithChunk, ParseChunks, IsNumeral, Value;
    var s, tail := numerals[0], MaskTail(numerals, comma);
    assert IsNumeral(s);
    ReadNumeral(s, tail);
    assert s != "" && s[0] == '0' && (s + tail)[0] == '0' by { NumeralStarts(s); }
    ParseStep(s + tail, Saturated(Value(s)), tail, chunks, n);
    if !(|numerals| == 1 && !comma) {
      assert tail[1..] == MaskText(numerals[1..], comma);
    }
  }

  lemma NumeralStarts(s: string)
    requires IsNumeral(s)
    ensures s != "" && s[0] == '0'
  {
  }

  /** All the chunks that count when `cs` follow `chunks`. */
  function Counted(chunks: seq<nat>, cs: seq<nat>): seq<nat> {
    if chunks == [] then Strip(cs) else chunks + cs
  }

  lemma CountedStep(chunks: seq<nat>, cs: seq<nat>)
    requires cs != []
    ensures Counted(chunks, cs) == Counted(WithChunk(chunks, cs[0]), cs[1..])
    ensures |cs| == 1 ==> Counted(chunks, cs) == WithChunk(chunks, cs[0])
    ensures chunks != [] ==> |Counted(chunks, cs)| > |chunks|
  {
  }

  /**
   * What parsing a mask text gives: the values modulo 2^32, without leading zeros. Too many of them are the only reason to
   * refuse it.
   */
  lemma {:induction false} ParseNumerals(numerals: seq<string>, comma: bool, chunks: seq<nat>, n: nat)
    requires AreNumerals(numerals) && |chunks| <= n && 0 < n
    ensures var all := Counted(chunks, AllBits(numerals));
      ParseChunks(MaskText(numerals, comma), chunks, n) == if |all| <= n then Some(all) else None
    decreases |numerals|
  {
    var bits := AllBits(numerals);
    if numerals == [] {
      assert bits == [] && chunks + bits == chunks;
    } else {
      ParseOne(numerals, comma, chunks, n);
      CountedStep(chunks, bits);
      assert bits[1..] == AllBits(numerals[1..]);
      hide ParseChunks, MaskText, Counted, AllBits, IsNumeral;
      if |chunks| < n && !(|numerals| == 1 && !comma) {
        ParseNumerals(numerals[1..], comma, WithChunk(chunks, bits[0]), n);
      }
    }
  }

  lemma {:induction false} StripKeepsWords(cs: seq<nat>, n: nat)
    requires |cs| <= n
    ensures ToWords(Strip(cs), n) == ToWords(cs, n)
  {
    if cs != [] && cs[0] == 0 {
      StripKeepsWords(cs[1..], n);
      assert ToWords(cs, n) == ToWords(cs[1..], n);
    }
  }

  // ---- Round trip of printed masks ----

  /** The chunks as they are printed. */
  function Printed(cs: seq<nat>): seq<string> {
    seq(|cs|, i requires 0 <= i < |cs| => HexWord(cs[i]))
  }

  lemma HexWordIsNumeral(w: nat)
    requires w < W32
    ensures IsNumeral(HexWord(w)) && Value(HexWord(w)) == w && Bits(HexWord(w)) == w
  {
    hide HexDigits, Fold, Pow2, DigitValue, Bits;
    Pow2Is64();
    HexDigitsValue(w, 8);
    var digits, s := HexDigits(w, 8), HexWord(w);
    assert s[2] == digits[0] && DigitValue(digits[0]) < 16;
    assert HexPrefix(s) && s[2..] == digits;
    BitsOfValue(s);
  }

  lemma PrintedNumerals(cs: seq<nat>)
    requires AreWords32(cs)
    ensures AreNumerals(Printed(cs)) && AllBits(Printed(cs)) == cs
  {
    forall i | 0 <= i < |cs|
      ensures IsNumeral(Printed(cs)[i]) && Bits(Printed(cs)[i]) == cs[i]
    {
      HexWordIsNumeral(cs[i]);
    }
    hide IsNumeral, Bits, HexWord;
  }

  /** Parsing what is printed, joined by commas, gives back the mask, whatever its number of words. */
  lemma MaskRoundTrip(bits: seq<nat>)
    requires AreWords32(bits) && bits != []
    ensures var printed := Strip(Reverse(bits));
      && ParseChunks(MaskText(Printed(printed), false), [], |bits|) == Some(printed)
      && ToWords(printed, |bits|) == bits
  {
    hide IsNumeral, Bits, HexWord, ParseChunks, Reverse, Strip, MaskText, AllBits, Printed;
    var printed := Strip(Reverse(bits));
    StripIsPart(Reverse(bits));
    PrintedNumerals(printed);
    ParseNumerals(Printed(printed), false, [], |bits|);
    StripKeepsWords(Reverse(bits), |bits|);
    assert ToWords(Reverse(bits), |bits|) == bits;
  }

  lemma {:induction false} StripIsPart(cs: seq<nat>)
    requires AreWords32(cs)
    ensures AreWords32(Strip(cs)) && Strip(Strip(cs)) == Strip(cs)
  {
    if cs != [] && cs[0] == 0 { StripIsPart(cs[1..]); }
  }

  // ---- The number that a text denotes ----

  /** Chunks that are no larger denote a smaller number, unless they are all equal. */
  lemma {:induction false} BigEndianMonotone(a: seq<nat>, b: seq<nat>)
    requires |a| == |b| && forall i | 0 <= i < |a| :: a[i] <= b[i]
    ensures BigEndian(a) <= BigEndian(b) && (BigEndian(a) == BigEndian(b) <==> a == b)
  {
    if a != [] {
      var k := |a| - 1;
      BigEndianMonotone(a[..k], b[..k]);
      assert a == a[..k] + [a[k]] && b == b[..k] + [b[k]];
    }
  }

  lemma BitsOfValue(s: string)
    ensures Bits(s) <= Value(s) && (Bits(s) == Value(s) <==> Value(s) < W32)
  {
    hide Fold, Digits;
  }

  /**
   * For every list of hexadecimal numerals: the text is refused if and only if more than `n` chunks remain when the values
   * modulo 2^32 are stripped of leading zeros; and otherwise the parsed words denote the number that the text denotes if and
   * only if every value is below 2^32.
   */
  lemma ParsedNumber(numerals: seq<string>, comma: bool, n: nat)
    requires AreNumerals(numerals) && 0 < n
    ensures match ParseChunks(MaskText(numerals, comma), [], n)
      case None => |Strip(AllBits(numerals))| > n
      case Some(chunks) =>
        && chunks == Strip(AllBits(numerals)) && |chunks| <= n
        && (LittleEndian(ToWords(chunks, n)) == BigEndian(Values(numerals)) <==> forall s | s in numerals :: Value(s) < W32)
  {
    hide IsNumeral, Bits, Value, ParseChunks, MaskText;
    var bits, values := AllBits(numerals), Values(numerals);
    ParseNumerals(numerals, comma, [], n);
    if |Strip(bits)| <= n {
      SameNumber(Strip(bits), n);
      StripKeepsNumber(bits);
      forall i | 0 <= i < |numerals|
        ensures bits[i] <= values[i] && (bits[i] == values[i] <==> Value(numerals[i]) < W32)
      {
        BitsOfValue(numerals[i]);
      }
      BigEndianMonotone(bits, values);
      assert (forall s | s in numerals :: Value(s) < W32) <==> forall i | 0 <= i < |numerals| :: Value(numerals[i]) < W32;
    }
  }

  /** A 33-bit mask is read as its lowest bit, and one that is a multiple of 2^32 as nothing. */
  lemma LongChunkLosesBits(n: nat)
    requires 0 < n
    ensures ParseChunks("0x100000001", [], n) == Some([1]) && ParseChunks("0x100000000", [], n) == Some([])
  {
    LongValues();
    var s, t := "0x100000001", "0x100000000";
    assert MaskText([s], false) == s && MaskText([t], false) == t;
    assert AllBits([s]) == [1] && AllBits([t]) == [0];
    hide Value, IsNumeral, ParseChunks, MaskText, Bits;
    ParseNumerals([s], false, [], n);
    ParseNumerals([t], false, [], n);
    assert [0][1..] == [];
  }

  lemma LongValues()
    ensures IsNumeral("0x100000001") && Value("0x100000001") == W32 + 1
    ensures IsNumeral("0x100000000") && Value("0x100000000") == W32
  {
    hide IsNumeral, Value;
    LongValue("0x100000001", "100000001");
    LongValue("0x100000000", "100000000");
  }

  lemma LongValue(text: string, s: string)
    requires text == "0x" + s && |s| == 9 && s[0] == '1' && (forall i | 1 <= i < 8 :: s[i] == '0') && (s[8] == '0' || s[8] == '1')
    ensures IsNumeral(text) && Value(text) == W32 + if s[8] == '1' then 1 else 0
  {
    assert HexPrefix(text) && text[2..] == s;
    assert AllDigits(s, 16);
    NineDigits(s);
    hide Fold;
  }

  lemma NineDigits(s: string)
    requires |s| == 9 && s[0] == '1' && (forall i | 1 <= i < 8 :: s[i] == '0') && DigitValue(s[8]) < 16
    ensures Fold(s, 16, 0) == W32 + DigitValue(s[8])
  {
    hide DigitValue;
    assert DigitValue('1') == 1 && DigitValue('0') == 0 by { OneAndZero(); }
    assert Fold(s[7..], 16, 0x1000000) == Fold(s[8..], 16, 0x10000000) == W32 + DigitValue(s[8]);
    assert Fold(s[5..], 16, 0x10000) == Fold(s[7..], 16, 0x1000000);
    assert Fold(s[3..], 16, 0x100) == Fold(s[5..], 16, 0x10000);
    assert Fold(s, 16, 0) == Fold(s[1..], 16, 1) == Fold(s[3..], 16, 0x100);
  }

  lemma OneAndZero()
    ensures DigitValue('1') == 1 && DigitValue('0') == 0
  {
  }

  // ---- What is accepted ----

  /** The hexadecimal digits at the front of a text, and the rest. */
  function SplitHex(s: string): (r: (string, string))
    ensures r.0 + r.1 == s && AllDigits(r.0, 16) && !StartsNumber(r.1, 16) && (StartsNumber(s, 16) ==> r.0 != "")
  {
    if StartsNumber(s, 16) then
      var (digits, rest) := SplitHex(s[1..]);
      ([s[0]] + digits, rest)
    else ("", s)
  }

  lemma PrefixedAtFront(text: string) returns (s: string, rest: string)
    requires HexPrefix(text)
    ensures text == s + rest && IsNumeral(s) && Strtoul(text, 16).1 == rest
  {
    hide ReadDigits, SplitHex, Fold, AllDigits, DigitValue;
    var digits, tail := SplitHex(text[2..]).0, SplitHex(text[2..]).1;
    ReadThrough(digits, tail, 16, 0);
    s, rest := text[..2] + digits, tail;
    assert s[2] == text[2] && s[2..] == digits;
    assert SkipSpace(text) == text && NumberPart(text, 16) == (16, text[2..]);
  }

  lemma PlainAtFront(text: string) returns (s: string, rest: string)
    requires text != "" && text[0] == '0' && !HexPrefix(text)
    ensures text == s + rest && IsNumeral(s) && Strtoul(text, 16).1 == rest
  {
    hide ReadDigits, SplitHex, Fold;
    s, rest := SplitHex(text).0, SplitHex(text).1;
    ZeroStarts(text);
    ReadThrough(s, rest, 16, 0);
    assert s + rest == text && s[0] == text[0];
    hide DigitValue, AllDigits, StartsNumber;
    NoPrefixInFront(s, rest);
    assert SkipSpace(text) == text && NumberPart(text, 16) == (16, text);
  }

  lemma ZeroStarts(text: string)
    requires text != "" && text[0] == '0'
    ensures StartsNumber(text, 16)
  {
  }

  lemma NoPrefixInFront(s: string, rest: string)
    requires !HexPrefix(s + rest)
    ensures !HexPrefix(s)
  {
    assert forall k | 0 <= k < |s| :: (s + rest)[k] == s[k];
  }

  /** What strtoul() leaves of a text that starts with a digit. */
  lemma NumeralAtFront(text: string) returns (s: string, rest: string)
    requires text != "" && text[0] == '0'
    ensures text == s + rest && IsNumeral(s) && Strtoul(text, 16).1 == rest
  {
    hide Strtoul, ReadDigits, SplitHex, Fold;
    if HexPrefix(text) {
      s, rest := PrefixedAtFront(text);
    } else {
      s, rest := PlainAtFront(text);
    }
  }

  /** Without a digit strtoul() consumes nothing, and an 'x' is no separator. */
  lemma LoneX(text: string, chunks: seq<nat>, n: nat)
    requires text != "" && Lower(text[0]) == 'x'
    ensures ParseChunks(text, chunks, n).None?
  {
    assert Strtoul(text, 16) == (0, text);
    hide Strtoul;
  }

  /** A chunk that passes the test of its second character only is refused in the end. */
  lemma StartsWithZero(text: string, chunks: seq<nat>, n: nat)
    requires text != "" && ParseChunks(text, chunks, n).Some?
    ensures text[0] == '0'
  {
    if text[0] != '0' {
      XSecond(text);
      hide Strtoul;
      var next := Strtoul(text, 16).1;
      if next != "" && next[0] == ',' {
        LoneX(next[1..], WithChunk(chunks, Strtoul(text, 16).0 % W32), n);
      }
    }
  }

  lemma XSecond(text: string)
    requires |text| > 1 && text[0] != '0' && Lower(text[1]) == 'x'
    ensures var next := Strtoul(text, 16).1;
      next != "" && (next[0] == ',' ==> next == text)
  {
    assert DigitValue(text[1]) >= 16 && !IsSpace(text[1]);
    if StartsNumber(text, 16) {
      assert ReadDigits(text[1..], 16, DigitValue(text[0])) == (DigitValue(text[0]), text[1..]);
    }
    if IsSpace(text[0]) {
      assert SkipSpace(text) == text[1..] by { assert SkipSpace(text[1..]) == text[1..]; }
    }
  }

  /** Nothing but numerals joined by commas is accepted. */
  lemma {:induction false} OnlyMasksAreRead(text: string, chunks: seq<nat>, n: nat) returns (numerals: seq<string>, comma: bool)
    requires ParseChunks(text, chunks, n).Some?
    ensures AreNumerals(numerals) && text == MaskText(numerals, comma)
    decreases |text|
  {
    hide IsNumeral, Strtoul;
    numerals, comma := [], false;
    if text != "" {
      StartsWithZero(text, chunks, n);
      var s, rest := NumeralAtFront(text);
      if rest == "" {
        numerals := [s];
        assert text == s;
      } else {
        NumeralStarts(s);
        var more;
        more, comma := OnlyMasksAreRead(rest[1..], WithChunk(chunks, Strtoul(text, 16).0 % W32), n);
        numerals, comma := [s] + more, comma || more == [];
        assert numerals[1..] == more && rest == "," + rest[1..];
        assert MaskText(more, comma) == rest[1..];
      }
    }
  }

  /** The first loop: the chunks of the text, or -1. */
  method ReadChunks(text: string, chunk: array<nat>) returns (nrChunks: int)
    modifies chunk
    ensures match ParseChunks(text, [], chunk.Length)
      case None => nrChunks == -1
      case Some(chunks) => 0 <= nrChunks <= chunk.Length && chunk[..nrChunks] == chunks
  {
    hide Strtoul, WithChunk;
    nrChunks := 0;
    var args := text;
    while args != ""
      invariant 0 <= nrChunks <= chunk.Length
      invariant ParseChunks(args, chunk[..nrChunks], chunk.Length) == ParseChunks(text, [], chunk.Length)
      decreases |args|
    {
      if args[0] != '0' && !(|args| > 1 && Lower(args[1]) == 'x') {
        return -1;
      }
      if nrChunks >= chunk.Length {
        return -1;
      }
      var (value, next) := Strtoul(args, 16);
      var bits := value % W32;
      nrChunks := AddChunk(chunk, nrChunks, bits);
      if next == "" {
        return;
      }
      if next[0] != ',' {
        return -1;
      }
      args := next[1..];
    }
  }

  method AddChunk(chunk: array<nat>, nrChunks: nat, bits: nat) returns (n: nat)
    requires nrChunks < chunk.Length
    modifies chunk
    ensures n <= chunk.Length && chunk[..n] == WithChunk(old(chunk[..nrChunks]), bits)
  {
    n := nrChunks;
    if nrChunks != 0 || bits != 0 {
      chunk[n] := bits;
      n := n + 1;
      assert chunk[..n] == old(chunk[..nrChunks]) + [bits];
    }
  }

  /** The second loop: chunks to words, in reverse order. */
  method Transfer(chunk: array<nat>, nrChunks: nat, n: nat) returns (words: array<nat>)
    requires nrChunks <= chunk.Length && nrChunks <= n
    ensures words[..] == ToWords(chunk[..nrChunks], n)
  {
    words := new nat[n](_ => 0);
    var left, i := nrChunks, 0;
    while left > 0
      invariant 0 <= left == nrChunks - i
      invariant forall k | 0 <= k < n :: words[k] == if k < i then chunk[nrChunks - 1 - k] else 0
    {
      left := left - 1;
      words[i] := chunk[left];
      i := i + 1;
    }
  }

  /** get_cpuset_from_mask(): the words of the set and how many chunks they came from, or an error. */
  method GetCpusetFromMask(text: string, n: nat) returns (words: array?<nat>, count: int)
    requires 0 < n
    ensures match ParseChunks(text, [], n)
      case None => words == null && count == -1
      case Some(chunks) => words != null && count == |chunks| && |chunks| <= n && words[..] == ToWords(chunks, n)
  {
    hide ParseChunks, ToWords;
    var chunk := new nat[n](_ => 0);
    count := ReadChunks(text, chunk);
    words := null;
    if count >= 0 {
      words := Transfer(chunk, count, n);
    }
  }
}
