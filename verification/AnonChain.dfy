/** Anonymous segments placed one after another with `offset=<previous segment>`. */
module AnonChain {
  import opened Wrappers
  import opened Words
  import opened PageWindow
  import opened SlotTable
  import opened Entries
  import opened SegmentTable

  /** The address asked for by `offset=` of an entry, as its fields stand. */
  function NextOffset(prev: Slot): Word {
    (prev.offset + prev.length) % W64
  }

  /** Bytes that the segments take up, each rounded up to whole pages. */
  function Extent(lengths: seq<Word>, p: nat): nat
    requires p > 0
  {
    if lengths == [] then 0 else Extent(lengths[..|lengths| - 1], p) + CeilTo(lengths[|lengths| - 1], p)
  }

  /** How one segment of a chain was registered and mapped: flags, arguments of `map`, the slot, and the regions before and after. */
  datatype Link = Link(flags: Flags, range: Option<Range>, mapFlags: Flags, fileSize: Word,
                       slot: nat, before: map<nat, Region>, after: map<nat, Region>)

  /** Entry `i` as registered: after the first, at the end of the entry before it, which is mapped by then. */
  function LinkEntry(base: Word, lengths: seq<Word>, vs: seq<Slot>, links: seq<Link>, i: nat): Slot
    requires i < |vs| == |lengths| == |links|
  {
    Fresh(Anon, vs[i].name, Range(if i == 0 then base else NextOffset(vs[i - 1]), lengths[i]), links[i].flags)
  }

  /** Entry `s` was mapped as `v`. */
  ghost predicate MappedBy(s: Slot, v: Slot, link: Link, pages: PageSizes) {
    MapResult(Done, s, v, link.range, link.mapFlags, link.fileSize, pages, link.slot, link.before, link.after)
  }

  /** Entry `vs[i]` is the result of registering and mapping the `i`th segment of the chain; other commands may come between. */
  ghost predicate ChainMapped(base: Word, lengths: seq<Word>, vs: seq<Slot>, links: seq<Link>, pages: PageSizes) {
    && |lengths| == |vs| == |links|
    && forall i | 0 <= i < |vs| :: MappedBy(LinkEntry(base, lengths, vs, links, i), vs[i], links[i], pages)
  }

  predicate PlacedAt(v: Slot, at: nat, length: nat) {
    v.start == Some(at) && v.offset == at && v.length == length && at + length < W64
  }

  /** An anonymous entry registered at a page-aligned nonzero address is mapped exactly there. */
  lemma MappedWhereAsked(s: Slot, v: Slot, link: Link, pages: PageSizes)
    requires UsablePages(pages) && s.kind.Anon? && s.offset != 0 && Multiple(s.offset, pages.base)
    requires MappedBy(s, v, link, pages)
    ensures PlacedAt(v, s.offset, CeilTo(s.length, pages.base))
  {
    hide RoundUp, RoundDown, PowerOfTwo, Multiple, CeilTo;
    RoundingIsIdempotent(s.offset, pages.base);
    RoundUpMeaning(s.length, pages.base);
  }

  lemma {:induction false} ExtentIsMultiple(lengths: seq<Word>, p: nat)
    requires p > 0
    ensures Multiple(Extent(lengths, p), p)
  {
    hide Multiple, CeilTo;
    if lengths == [] {
      FloorIsMultiple(0, p);
    } else {
      ExtentIsMultiple(lengths[..|lengths| - 1], p);
      CeilIsLeastMultiple(lengths[|lengths| - 1], p, 0);
      MultiplesAddUp(Extent(lengths[..|lengths| - 1], p), CeilTo(lengths[|lengths| - 1], p), p);
    }
  }

  lemma ExtentStep(lengths: seq<Word>, p: nat, i: nat)
    requires p > 0 && i < |lengths|
    ensures Extent(lengths[..i + 1], p) == Extent(lengths[..i], p) + CeilTo(lengths[i], p)
  {
    assert lengths[..i + 1][..i] == lengths[..i];
  }

  lemma {:induction false} ExtentGrows(lengths: seq<Word>, p: nat, i: nat, j: nat)
    requires p > 0 && i <= j <= |lengths|
    ensures Extent(lengths[..i], p) <= Extent(lengths[..j], p)
    decreases j
  {
    if i < j {
      ExtentGrows(lengths, p, i, j - 1);
      ExtentStep(lengths, p, j - 1);
    }
  }

  lemma {:induction false} LinkIsAt(base: Word, lengths: seq<Word>, vs: seq<Slot>, links: seq<Link>, pages: PageSizes, i: nat)
    requires UsablePages(pages) && base != 0 && pages.base > 0 && Multiple(base, pages.base)
    requires ChainMapped(base, lengths, vs, links, pages) && i < |vs|
    ensures |lengths| == |vs|
    ensures PlacedAt(vs[i], base + Extent(lengths[..i], pages.base), CeilTo(lengths[i], pages.base))
  {
    hide CeilTo, MappedBy, UsablePages, Multiple, Extent, ChainMapped;
    LinkMapped(base, lengths, vs, links, pages, i);
    var offset := LinkEntry(base, lengths, vs, links, i).offset;
    if i == 0 {
      NothingBefore(lengths, pages.base);
    } else {
      LinkIsAt(base, lengths, vs, links, pages, i - 1);
      ExtentStep(lengths, pages.base, i - 1);
    }
    assert offset == base + Extent(lengths[..i], pages.base);
    ExtentIsMultiple(lengths[..i], pages.base);
    MultiplesAddUp(base, Extent(lengths[..i], pages.base), pages.base);
    MappedWhereAsked(LinkEntry(base, lengths, vs, links, i), vs[i], links[i], pages);
  }

  lemma LinkMapped(base: Word, lengths: seq<Word>, vs: seq<Slot>, links: seq<Link>, pages: PageSizes, i: nat)
    requires ChainMapped(base, lengths, vs, links, pages) && i < |vs|
    ensures |lengths| == |vs| == |links|
    ensures MappedBy(LinkEntry(base, lengths, vs, links, i), vs[i], links[i], pages)
  {
  }

  function RegionOf(v: Slot): Region
    requires v.start.Some?
  {
    Region(v.start.value, v.length)
  }

  /** The regions lie end to end from `base`, in order, with the given lengths rounded up to pages. */
  ghost predicate Tiles(vs: seq<Slot>, base: nat, lengths: seq<Word>, p: nat)
    requires p > 0
  {
    && |vs| == |lengths|
    && (forall i | 0 <= i < |vs| :: vs[i].start.Some? && vs[i].length == CeilTo(lengths[i], p))
    && (vs != [] ==> vs[0].start == Some(base))
    && (forall i | 0 < i < |vs| :: RegionOf(vs[i]).start == EndOf(vs, i - 1))
    && (vs != [] ==> EndOf(vs, |vs| - 1) == base + Extent(lengths, p))
    && (forall i, j | 0 <= i < j < |vs| :: Disjoint(RegionOf(vs[i]), RegionOf(vs[j])))
  }

  function EndOf(vs: seq<Slot>, i: nat): nat
    requires i < |vs| && vs[i].start.Some?
  {
    vs[i].start.value + vs[i].length
  }

  /** The mapped regions tile memory. Nothing needs to be said about wrapping: mmap() succeeded. */
  lemma ChainTiles(base: Word, lengths: seq<Word>, vs: seq<Slot>, links: seq<Link>, pages: PageSizes)
    requires UsablePages(pages) && base != 0 && pages.base > 0 && Multiple(base, pages.base)
    requires ChainMapped(base, lengths, vs, links, pages)
    ensures Tiles(vs, base, lengths, pages.base)
  {
    hide ChainMapped, CeilTo, Extent, UsablePages, Multiple, PlacedAt, Tiles;
    assert |vs| == |lengths| by { SameLength(base, lengths, vs, links, pages); }
    forall i | 0 <= i < |vs|
      ensures PlacedAt(vs[i], base + Extent(lengths[..i], pages.base), CeilTo(lengths[i], pages.base))
    {
      LinkIsAt(base, lengths, vs, links, pages, i);
    }
    PlacedTile(vs, base, lengths, pages.base);
  }

  lemma SameLength(base: Word, lengths: seq<Word>, vs: seq<Slot>, links: seq<Link>, pages: PageSizes)
    requires ChainMapped(base, lengths, vs, links, pages)
    ensures |lengths| == |vs|
  {
  }

  lemma PlacedTile(vs: seq<Slot>, base: nat, lengths: seq<Word>, p: nat)
    requires p > 0 && |vs| == |lengths|
    requires forall i | 0 <= i < |vs| :: PlacedAt(vs[i], base + Extent(lengths[..i], p), CeilTo(lengths[i], p))
    ensures Tiles(vs, base, lengths, p)
  {
    hide CeilTo, Extent;
    forall i | 0 <= i < |vs|
      ensures vs[i].start.Some? && vs[i].start.value == base + Extent(lengths[..i], p)
      ensures EndOf(vs, i) == base + Extent(lengths[..i + 1], p)
    {
      ExtentStep(lengths, p, i);
    }
    forall i, j | 0 <= i < j < |vs|
      ensures Disjoint(RegionOf(vs[i]), RegionOf(vs[j]))
    {
      ExtentGrows(lengths, p, i + 1, j);
      assert EndOf(vs, i) <= vs[j].start.value;
    }
    assert lengths[..|vs|] == lengths;
    NothingBefore(lengths, p);
  }

  lemma NothingBefore(lengths: seq<Word>, p: nat)
    requires p > 0
    ensures Extent(lengths[..0], p) == 0
  {
  }

  // ---- Registered before the previous segment was mapped ----

  function FloorTo(n: nat, p: nat): nat
    requires p > 0
  {
    n - n % p
  }

  lemma FloorOfSum(m: nat, n: nat, p: nat)
    requires p > 0 && Multiple(m, p)
    ensures FloorTo(m + n, p) == m + FloorTo(n, p)
  {
    DivModUnique(m + n, p, m / p + n / p, n % p);
  }

  lemma FloorNearCeil(r: nat, n: nat, p: nat)
    requires p > 0 && r < p
    ensures FloorTo(r + n, p) == if CeilTo(n, p) <= r + n then CeilTo(n, p) else CeilTo(n, p) - p
  {
    var c, f := CeilTo(n, p), FloorTo(r + n, p);
    CeilIsLeastMultiple(n, p, 0);
    FloorIsMultiple(r + n, p);
    MultiplesAddUp(c, p, p);
    hide CeilTo, FloorTo, Multiple;
    if f < c - p { MultiplesApart(f, c - p, p); }
    if c - p < f < c { MultiplesApart(f, c, p); }
    if c < f { MultiplesApart(c, f, p); }
  }

  /** Mapping only rounds the extent. */
  function OnceMapped(s: Slot, pages: PageSizes): (r: Region)
    requires UsablePages(pages) && s.kind.Anon? && 0 < s.length <= W64 - pages.base
    ensures pages.base > 0 && r.start == FloorTo(s.offset, pages.base) && r.length == CeilTo(s.length, pages.base)
    ensures 0 < r.length
  {
    RoundDownMeaning(s.offset, pages.base);
    RoundUpMeaning(s.length, pages.base);
    CeilIsLeastMultiple(s.length, pages.base, 0);
    var v := Prepare(s, None, NO_FLAGS, 0, pages.base).0;
    Region(v.offset, v.length)
  }

  /**
   * `offset=` of a segment that is not mapped yet takes its unrounded fields. Once both are mapped, the successor starts
   * where the other ends, or one page earlier; for a page-aligned address, earlier exactly if the length is not whole pages.
   */
  lemma UnmappedPredecessor(prev: Slot, name: string, length: Word, flags: Flags, pages: PageSizes)
    requires UsablePages(pages) && prev.kind.Anon?
    requires 0 < prev.length <= W64 - pages.base && prev.offset + prev.length < W64 && 0 < length <= W64 - pages.base
    ensures pages.base > 0
    ensures var p := pages.base;
      var a := OnceMapped(prev, pages);
      var b := OnceMapped(Fresh(Anon, name, Range(NextOffset(prev), length), flags), pages);
      var reachesEnd := CeilTo(prev.length, p) <= prev.offset % p + prev.length;
      && b.start == a.start + a.length - (if reachesEnd then 0 else p)
      && (Disjoint(a, b) <==> reachesEnd)
      && (prev.offset % p == 0 ==> (Disjoint(a, b) <==> prev.length % p == 0))
  {
    hide UsablePages, OnceMapped, Multiple, CeilTo, FloorTo;
    var p := pages.base;
    var b := OnceMapped(Fresh(Anon, name, Range(NextOffset(prev), length), flags), pages);
    assert Fresh(Anon, name, Range(NextOffset(prev), length), flags).offset == prev.offset + prev.length;
    NextStart(prev.offset, prev.length, p);
  }

  lemma NextStart(o: nat, l: nat, p: nat)
    requires 0 < p && 0 < l
    ensures p <= CeilTo(l, p)
    ensures FloorTo(o + l, p) == FloorTo(o, p) + CeilTo(l, p) - if CeilTo(l, p) <= o % p + l then 0 else p
    ensures o % p == 0 ==> (CeilTo(l, p) <= o % p + l <==> l % p == 0)
  {
    FloorIsMultiple(o, p);
    CeilReaches(l, p);
    hide Multiple, CeilTo;
    FloorOfSum(FloorTo(o, p), o % p + l, p);
    FloorNearCeil(o % p, l, p);
  }

  lemma CeilReaches(n: nat, p: nat)
    requires 0 < p && 0 < n
    ensures p <= CeilTo(n, p) && (CeilTo(n, p) <= n <==> n % p == 0)
  {
  }
}
