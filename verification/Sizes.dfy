/** Sizes with a scale suffix, the range arguments of commands, and the values that stand for "bad" and "none". */
module Sizes {
  import opened Wrappers
  import opened Words
  import opened PageWindow
  import opened Numerals
  import opened Routing

  /** In-band error value. */
  const BOGUS_SIZE: Word := W64 - 1

  const KILO_SHIFT: nat := 10

  /** `w << k` */
  function ShiftLeft(w: Word, k: nat): Word
    decreases k
  {
    if k == 0 then w else ShiftLeft(w * 2 % W64, k - 1)
  }

  function Suffixed(value: Word, suffix: char, pagesize: Word): Word {
    match Lower(suffix)
    case 'p' => value * pagesize % W64
    case 'k' => ShiftLeft(value, KILO_SHIFT)
    case 'm' => ShiftLeft(value, KILO_SHIFT * 2)
    case 'g' => ShiftLeft(value, KILO_SHIFT * 3)
    case _ => BOGUS_SIZE
  }

  function SizeKmgp(arg: string, pagesize: Word): Word {
    var (value, next) := Strtoul(arg, 0);
    if next == "" then value else Suffixed(value, next[0], pagesize)
  }

  /** What a suffix multiplies by. */
  function Scale(c: char, pagesize: Word): Option<nat> {
    match Lower(c)
    case 'p' => Some(pagesize)
    case 'k' => Some(1024)
    case 'm' => Some(1024 * 1024)
    case 'g' => Some(1024 * 1024 * 1024)
    case _ => None
  }

  lemma ModMul(a: nat, b: nat)
    ensures a % W64 * b % W64 == a * b % W64
  {
    var q, r := a / W64, a % W64;
    assert a == W64 * q + r;
    assert a * b == W64 * (q * b) + r * b;
    var q2, r2 := r * b / W64, r * b % W64;
    assert r * b == W64 * q2 + r2;
    assert a * b == W64 * (q * b + q2) + r2;
    DivModUnique(a * b, W64, q * b + q2, r2);
  }

  lemma {:induction false} ShiftIsMultiplication(w: Word, k: nat)
    ensures ShiftLeft(w, k) == w * Pow2(k) % W64
    decreases k
  {
    if k > 0 {
      ShiftIsMultiplication(w * 2 % W64, k - 1);
      DoubleAndShift(w, Pow2(k - 1));
    }
  }

  lemma DoubleAndShift(w: Word, p: nat)
    ensures w * 2 % W64 * p % W64 == w * (2 * p) % W64
  {
    ModMul(w * 2, p);
    assert w * 2 * p == w * (2 * p);
  }

  lemma SuffixedIsProduct(value: Word, suffix: char, pagesize: Word)
    requires Scale(suffix, pagesize).Some?
    ensures Suffixed(value, suffix, pagesize) == value * Scale(suffix, pagesize).value % W64
  {
    hide ShiftLeft, Pow2;
    KiloScales();
    match Lower(suffix)
    case 'k' => ShiftIsMultiplication(value, 10);
    case 'm' => ShiftIsMultiplication(value, 20);
    case 'g' => ShiftIsMultiplication(value, 30);
    case _ =>
  }

  lemma FitsAWord(n: nat)
    ensures n % W64 == n <==> n < W64
  {
  }

  /** A suffixed number is its product with the scale modulo 2^64: the true product exactly when that fits a word. */
  lemma ScaledSize(arg: string, pagesize: Word)
    requires Strtoul(arg, 0).1 != "" && Scale(Strtoul(arg, 0).1[0], pagesize).Some?
    ensures var product := Strtoul(arg, 0).0 * Scale(Strtoul(arg, 0).1[0], pagesize).value;
      && SizeKmgp(arg, pagesize) == product % W64
      && (SizeKmgp(arg, pagesize) == product <==> product < W64)
  {
    hide Strtoul, Suffixed, Scale;
    var (value, next) := Strtoul(arg, 0);
    SuffixedIsProduct(value, next[0], pagesize);
    FitsAWord(value * Scale(next[0], pagesize).value);
  }

  lemma KiloScales()
    ensures Pow2(10) == 1024 && Pow2(20) == 1024 * 1024 && Pow2(30) == 1024 * 1024 * 1024
  {
  }

  lemma EvenProduct(a: nat, b: nat)
    requires b % 2 == 0
    ensures a * b % W64 % 2 == 0
  {
    var h := b / 2;
    assert a * b == 2 * (a * h);
    var q, r := a * b / W64, a * b % W64;
    assert a * b == W64 * q + r;
    assert r == 2 * (a * h - W64 / 2 * q);
  }

  /** With an even page size no scaled number is the error value, which is odd. */
  lemma ScaledIsNeverBogus(arg: string, pagesize: Word)
    requires PowerOfTwo(pagesize) && pagesize > 1
    requires Strtoul(arg, 0).1 != "" && Scale(Strtoul(arg, 0).1[0], pagesize).Some?
    ensures SizeKmgp(arg, pagesize) != BOGUS_SIZE
  {
    hide Strtoul, SizeKmgp, Scale, PowerOfTwo;
    var (value, next) := Strtoul(arg, 0);
    ScaledSize(arg, pagesize);
    ScaleIsEven(next[0], pagesize);
    EvenProduct(value, Scale(next[0], pagesize).value);
  }

  lemma ScaleIsEven(suffix: char, pagesize: Word)
    requires PowerOfTwo(pagesize) && pagesize > 1 && Scale(suffix, pagesize).Some?
    ensures Scale(suffix, pagesize).value % 2 == 0
  {
    var k: nat :| k < 64 && pagesize == Pow2(k);
    assert pagesize % 2 == 0;
  }

  // ---- Range arguments ----

  datatype RangeArg = Absent | Bad | Given(range: Range, rest: string)

  /** The first word, and the text after the white space that follows it. */
  function FirstWord(s: string): (r: (string, string))
    ensures |r.0| + |r.1| <= |s| && (s != "" && !White(s[0]) ==> r.0 != "" && r.0[0] == s[0])
  {
    if s == "" || White(s[0]) then ("", SkipWhite(s))
    else
      var (w, rest) := FirstWord(s[1..]);
      ([s[0]] + w, rest)
  }

  /** get_range(): an offset, which has to start with a digit, and a length, where "*" stands for all that follows. */
  function GetRange(args: string, pagesize: Word): RangeArg {
    if args == "" || !IsDigit(args[0]) then Absent
    else
      var (first, more) := FirstWord(args);
      var offset := SizeKmgp(first, pagesize);
      if offset == BOGUS_SIZE || more == "" then Bad
      else
        var (second, rest) := FirstWord(more);
        if second != "" && second[0] == '*' then Given(Range(offset, 0), rest)
        else
          var length := SizeKmgp(second, pagesize);
          if length == BOGUS_SIZE then Bad else Given(Range(offset, length), rest)
  }

  /** The range that `where` passes on, unless the arguments are bad. */
  function WhereRange(args: string, pagesize: Word): Option<Range> {
    match GetRange(args, pagesize)
    case Bad => None
    case Absent => Some(Range(0, DEFAULT_LENGTH))
    case Given(range, _) => Some(range)
  }

  /** The in-band default is never mistaken for a length: 64 pages are shown if and only if no range was given. */
  lemma DefaultExactlyWithoutRange(args: string, pagesize: Word)
    requires WhereRange(args, pagesize).Some?
    ensures WhereRange(args, pagesize).value.length == DEFAULT_LENGTH <==> args == "" || !IsDigit(args[0])
    ensures args != "" && IsDigit(args[0]) ==>
      && WhereRange(args, pagesize).value.offset != BOGUS_SIZE
      && LocationRange(WhereRange(args, pagesize).value, pagesize) == WhereRange(args, pagesize).value
  {
  }
}
