/** Page rounding by masks in 64-bit arithmetic, and the window that touch, mbind, where and lock act on. */
module PageWindow {
  import opened Wrappers
  import opened Words

  /** Optional `<offset> <length>` arguments of a command; length 0 means "to the end". */
  datatype Range = Range(offset: Word, length: Word)

  /** Half-open address interval `[start, start + length)`. */
  datatype Region = Region(start: nat, length: nat)

  predicate Disjoint(a: Region, b: Region) {
    a.start + a.length <= b.start || b.start + b.length <= a.start
  }

  /** "No range given", in the length field. */
  const DEFAULT_LENGTH: Word := W64 - 1

  function PageMask(pagesize: Word): Word {
    (pagesize + W64 - 1) % W64
  }

  function RoundUp(size: Word, pagesize: Word): Word {
    var sum := (size + PageMask(pagesize)) % W64;
    AndBound(sum, Not(PageMask(pagesize)));
    And(sum, Not(PageMask(pagesize)))
  }

  function RoundDown(size: Word, pagesize: Word): Word {
    AndBound(size, Not(PageMask(pagesize)));
    And(size, Not(PageMask(pagesize)))
  }

  /** The four callers inline this computation; the caller supplies the segment's length and page size. */
  function Clip(range: Range, segLength: Word, pagesize: Word): Option<Region> {
    var offset := RoundDown(range.offset, pagesize);
    if offset >= segLength then None
    else
      var maxLength := segLength - offset;
      var length := if range.length != 0 then RoundUp(range.length, pagesize) else 0;
      Some(Region(offset, if length == 0 || length > maxLength then maxLength else length))
  }

  /** Rounding without a word size: the least multiple of `p` that is at least `n`. */
  function CeilTo(n: nat, p: nat): (c: nat)
    requires p > 0
  {
    if n % p == 0 then n else n - n % p + p
  }

  function Min(a: nat, b: nat): nat {
    if a <= b then a else b
  }

  predicate Multiple(m: int, p: nat)
    requires p > 0
  {
    m % p == 0
  }

  predicate PowerOfTwo(p: nat) {
    exists k: nat | k < 64 :: p == Pow2(k)
  }

  lemma MultiplesAddUp(a: int, b: int, p: int)
    requires p > 0 && Multiple(a, p) && Multiple(b, p)
    ensures Multiple(a + b, p) && Multiple(a - b, p)
  {
    var x, y := a / p, b / p;
    assert a == p * x && b == p * y;
    assert a + b == p * (x + y) + 0 && a - b == p * (x - y) + 0;
    DivModUnique(a + b, p, x + y, 0);
    DivModUnique(a - b, p, x - y, 0);
  }

  /** Distinct multiples of `p` are at least `p` apart. */
  lemma MultiplesApart(a: int, b: int, p: int)
    requires p > 0 && Multiple(a, p) && Multiple(b, p) && a < b
    ensures a + p <= b
  {
    MultiplesAddUp(b, a, p);
    assert b - a == p * ((b - a) / p);
    MulSign(p, (b - a) / p);
  }

  lemma FloorIsMultiple(n: nat, p: nat)
    requires p > 0
    ensures Multiple(n - n % p, p) && 0 <= n - n % p <= n < n - n % p + p
    ensures Multiple(p, p) && Multiple(0, p)
  {
    DivModUnique(n - n % p, p, n / p, 0);
  }

  lemma CeilIsLeastMultiple(n: nat, p: nat, m: nat)
    requires p > 0
    ensures Multiple(CeilTo(n, p), p) && n <= CeilTo(n, p) < n + p
    ensures Multiple(m, p) && n <= m ==> CeilTo(n, p) <= m
  {
    FloorIsMultiple(n, p);
    MultiplesAddUp(n - n % p, p, p);
    if Multiple(m, p) && n - n % p < m {
      MultiplesApart(n - n % p, m, p);
    }
  }

  lemma SandwichedMultiple(n: nat, p: nat, m: nat)
    requires p > 0 && Multiple(m, p) && n <= m < n + p
    ensures m == CeilTo(n, p)
  {
    CeilIsLeastMultiple(n, p, m);
    hide Multiple, CeilTo;
    if CeilTo(n, p) < m {
      MultiplesApart(CeilTo(n, p), m, p);
    }
  }

  lemma WordIsMultiple(p: nat)
    requires PowerOfTwo(p)
    ensures 0 < p < W64 && Multiple(W64, p)
  {
    var k: nat :| k < 64 && p == Pow2(k);
    Pow2BelowWord(k);
    Pow2Is64();
    Pow2Split(k, 64 - k);
    DivModUnique(W64, p, Pow2(64 - k), 0);
  }

  lemma PageMaskIs(p: Word)
    requires 0 < p
    ensures PageMask(p) == p - 1
  {
  }

  lemma RoundDownMeaning(size: Word, p: Word)
    requires PowerOfTwo(p)
    ensures RoundDown(size, p) == size - size % p
    ensures Multiple(RoundDown(size, p), p) && RoundDown(size, p) <= size < RoundDown(size, p) + p
  {
    hide And, Multiple, PageMask;
    var k: nat :| k < 64 && p == Pow2(k);
    PageMaskIs(p);
    Pow2Is64();
    hide Pow2;
    AndHighMask(size, k, 64);
    FloorIsMultiple(size, p);
  }

  lemma RoundUpIsDown(size: Word, p: Word)
    requires 0 < p
    ensures RoundUp(size, p) == RoundDown((size + p - 1) % W64, p)
  {
    hide And, PageMask;
    PageMaskIs(p);
  }

  /** Rounding up is exact until the result would be 2^64, where it wraps to 0. */
  lemma RoundUpMeaning(size: Word, p: Word)
    requires PowerOfTwo(p)
    ensures size <= W64 - p ==> RoundUp(size, p) == CeilTo(size, p)
    ensures size > W64 - p ==> RoundUp(size, p) == 0 && CeilTo(size, p) == W64
  {
    hide And, PowerOfTwo, RoundUp, RoundDown, CeilTo, Multiple;
    WordIsMultiple(p);
    RoundUpIsDown(size, p);
    var sum := (size + p - 1) % W64;
    RoundDownMeaning(sum, p);
    if size <= W64 - p {
      SandwichedMultiple(size, p, RoundDown(sum, p));
    } else {
      SandwichedMultiple(size, p, W64);
      FloorIsMultiple(0, p);
      if 0 < RoundDown(sum, p) {
        MultiplesApart(0, RoundDown(sum, p), p);
      }
    }
  }

  lemma {:induction false} AndZero(a: nat)
    ensures And(a, 0) == 0
  {
  }

  /** Without huge pages, a huge request rounds to length 0. */
  lemma RoundUpToNothing(size: Word)
    ensures RoundUp(size, 0) == 0
  {
    AndZero((size + W64 - 1) % W64);
  }

  lemma MultiplesAreFixed(n: nat, p: nat)
    requires p > 0 && Multiple(n, p)
    ensures CeilTo(n, p) == n && n - n % p == n
  {
  }

  lemma RoundingIsIdempotent(size: Word, p: Word)
    requires PowerOfTwo(p)
    ensures RoundUp(RoundUp(size, p), p) == RoundUp(size, p)
    ensures RoundDown(RoundDown(size, p), p) == RoundDown(size, p)
    ensures Multiple(RoundUp(size, p), p) && Multiple(RoundDown(size, p), p)
    ensures Multiple(size, p) ==> RoundUp(size, p) == size == RoundDown(size, p)
  {
    hide And, PowerOfTwo, RoundUp, RoundDown, CeilTo, Multiple;
    WordIsMultiple(p);
    FloorIsMultiple(0, p);
    RoundUpMeaning(size, p);
    RoundDownMeaning(size, p);
    CeilIsLeastMultiple(size, p, 0);
    MultipleIsFixed(RoundUp(size, p), p);
    MultipleIsFixed(RoundDown(size, p), p);
    if Multiple(size, p) {
      MultipleIsFixed(size, p);
    }
  }

  /** Rounding leaves page multiples alone; the largest multiple below 2^64 still fits. */
  lemma MultipleIsFixed(size: Word, p: Word)
    requires PowerOfTwo(p) && 0 < p && Multiple(size, p)
    ensures RoundUp(size, p) == size == RoundDown(size, p)
  {
    hide And, PowerOfTwo, RoundUp, RoundDown, CeilTo, Multiple;
    WordIsMultiple(p);
    MultiplesApart(size, W64, p);
    RoundUpMeaning(size, p);
    RoundDownMeaning(size, p);
    MultiplesAreFixed(size, p);
  }

  /** On a page-multiple segment the wrapped computation is the one meant over unbounded integers. */
  lemma ClipIsExact(range: Range, segLength: Word, p: Word)
    requires PowerOfTwo(p) && segLength % p == 0
    ensures Clip(range, segLength, p).None? <==> segLength <= range.offset
    ensures Clip(range, segLength, p).Some? ==>
      var w := Clip(range, segLength, p).value;
      && w.start == range.offset - range.offset % p
      && w.length == if range.length == 0 then segLength - w.start
                     else Min(CeilTo(range.length, p), segLength - w.start)
  {
    assert 0 < p && Multiple(segLength, p);
    hide And, PowerOfTwo, RoundUp, RoundDown, CeilTo, Multiple;
    RoundDownMeaning(range.offset, p);
    RoundUpMeaning(range.length, p);
    CeilIsLeastMultiple(range.length, p, 0);
    if RoundDown(range.offset, p) < segLength {
      MultiplesApart(RoundDown(range.offset, p), segLength, p);
    }
  }

  lemma ClipIsPageAlignedAndInside(range: Range, segLength: Word, p: Word)
    requires PowerOfTwo(p) && segLength % p == 0 && range.offset < segLength
    ensures Clip(range, segLength, p).Some?
    ensures var w := Clip(range, segLength, p).value;
      && w.start % p == 0 && w.length % p == 0 && p <= w.length && w.start + w.length <= segLength
      && w.start <= range.offset < w.start + p
  {
    assert 0 < p && Multiple(segLength, p);
    ClipIsExact(range, segLength, p);
    var w := Clip(range, segLength, p).value;
    RoundDownMeaning(range.offset, p);
    CeilIsLeastMultiple(range.length, p, 0);
    FloorIsMultiple(range.offset, p);
    MultiplesAddUp(segLength, w.start, p);
    assert Multiple(w.start, p) && Multiple(w.length, p);
    hide And, PowerOfTwo, RoundUp, RoundDown, CeilTo, Clip;
    MultiplesApart(0, w.length, p);
  }

  predicate In(a: nat, r: Region) {
    r.start <= a < r.start + r.length
  }

  /** Regions that are not empty are disjoint exactly if no address is in both. */
  lemma DisjointMeans(a: Region, b: Region)
    requires a.length > 0 && b.length > 0
    ensures Disjoint(a, b) <==> forall x: nat :: !(In(x, a) && In(x, b))
  {
    var x := if a.start <= b.start then b.start else a.start;
    assert !Disjoint(a, b) ==> In(x, a) && In(x, b);
  }

  /** Every requested address that lies in the segment is in the window. */
  ghost predicate Covers(w: Region, range: Range, segLength: Word) {
    forall a: nat | In(a, Region(range.offset, range.length)) && a < segLength :: In(a, w)
  }

  /**
   * Offset and length are rounded separately, so the last page of an unaligned request can be lost: unless the window
   * reaches the segment's end, or the request does not go past the rounded length counted from its first page.
   */
  lemma CoverageExactly(range: Range, segLength: Word, p: Word)
    requires PowerOfTwo(p) && segLength % p == 0 && range.length != 0 && range.offset < segLength
    ensures Clip(range, segLength, p).Some?
    ensures var w := Clip(range, segLength, p).value;
      Covers(w, range, segLength) <==>
      || segLength <= range.offset - range.offset % p + CeilTo(range.length, p)
      || range.offset % p + range.length <= CeilTo(range.length, p)
    ensures range.offset % p == 0 ==> Covers(Clip(range, segLength, p).value, range, segLength)
  {
    ClipIsExact(range, segLength, p);
    ClipIsPageAlignedAndInside(range, segLength, p);
    var w := Clip(range, segLength, p).value;
    CeilIsLeastMultiple(range.length, p, 0);
    var lost := w.start + w.length;
    if lost < segLength && lost < range.offset + range.length {
      assert In(lost, Region(range.offset, range.length)) && !In(lost, w);
      assert !Covers(w, range, segLength);
    }
  }

  /** Two bytes across a page boundary: only the first page is touched. */
  lemma UnalignedRequestLosesAPage()
    ensures var range := Range(4095, 2);
      && Clip(range, 8192, 4096) == Some(Region(0, 4096))
      && !Covers(Region(0, 4096), range, 8192)
  {
    assert Pow2(12) == 4096;
    ClipIsExact(Range(4095, 2), 8192, 4096);
    CoverageExactly(Range(4095, 2), 8192, 4096);
  }

  /** 64 pages when no range was given, else the range itself. */
  function LocationRange(range: Range, pagesize: Word): Range {
    if range.length == DEFAULT_LENGTH then range.(length := 64 * pagesize % W64) else range
  }
}
