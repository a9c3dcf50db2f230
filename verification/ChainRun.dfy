/** `anon` and `map` commands that chain segments, within any run of commands. */
module ChainRun {
  import opened Wrappers
  import opened Words
  import opened PageWindow
  import opened SlotTable
  import opened Entries
  import opened SegmentTable
  import opened AnonChain
  import opened Session

  /** One segment of a chain: what `anon` and `map` are given for it. */
  datatype Item = Item(name: string, length: Word, flags: Flags, range: Option<Range>, mapFlags: Flags, fileSize: Word)

  function AddItem(base: Word, items: seq<Item>, i: nat): Command
    requires i < |items|
  {
    if i == 0 then AddAnon(items[0].name, Range(base, items[0].length), items[0].flags)
    else AddAnonAfter(items[i].name, items[i].length, items[i].flags, items[i - 1].name)
  }

  function MapItem(item: Item): Command {
    MapSegment(item.name, item.range, item.mapFlags, item.fileSize)
  }

  /** From position `at`, every segment is registered after the one before it and then mapped, and all of that succeeds. */
  predicate ChainAt(cmds: seq<Command>, rs: seq<Answer>, at: nat, base: Word, items: seq<Item>) {
    && at + 2 * |items| <= |cmds| == |rs|
    && forall i | 0 <= i < |items| :: Added(cmds, rs, at + 2 * i, base, items, i)
  }

  predicate Added(cmds: seq<Command>, rs: seq<Answer>, k: nat, base: Word, items: seq<Item>, i: nat)
    requires |cmds| == |rs|
  {
    && i < |items| && !items[i].flags.maps && k + 1 < |cmds|
    && cmds[k] == AddItem(base, items, i) && rs[k].outcome == Done
    && cmds[k + 1] == MapItem(items[i]) && rs[k + 1].outcome == Done
  }

  function Lengths(items: seq<Item>): seq<Word> {
    seq(|items|, i requires 0 <= i < |items| => items[i].length)
  }

  /** A new anonymous entry that was registered and then mapped. */
  lemma RegisteredThenMapped(name: string, range: Range, item: Item, a: Abstract, b: Abstract, c: Abstract, pages: PageSizes)
    returns (link: Link)
    requires !item.flags.maps && name == item.name
    requires Registered(Done, Anon, name, "", range, item.flags, NO_FILE, a, b, pages)
    requires Mapping(Done, name, item.range, item.mapFlags, item.fileSize, b, c, pages)
    ensures link.flags == item.flags && name in c.dict && c.dict[name].name == name
    ensures MappedBy(Fresh(Anon, name, range, item.flags), c.dict[name], link, pages)
  {
    var s := Fresh(Anon, name, range, item.flags);
    NewAnonEntry(name, range, item.flags, a, b, pages);
    hide Registered, MapResult;
    var slot: nat :| MapResult(Done, s, c.dict[name], item.range, item.mapFlags, item.fileSize, pages, slot, b.mappings, c.mappings);
    link := Link(item.flags, item.range, item.mapFlags, item.fileSize, slot, b.mappings, c.mappings);
    MappedKeepsName(s, c.dict[name], link, pages);
  }

  lemma NewAnonEntry(name: string, range: Range, flags: Flags, a: Abstract, b: Abstract, pages: PageSizes)
    requires !flags.maps && Registered(Done, Anon, name, "", range, flags, NO_FILE, a, b, pages)
    ensures name in b.dict && b.dict[name] == Fresh(Anon, name, range, flags) && b.dict[name].start.None?
  {
  }

  lemma MappedKeepsName(s: Slot, v: Slot, link: Link, pages: PageSizes)
    requires MappedBy(s, v, link, pages)
    ensures v.name == s.name
  {
    hide RoundUp, RoundDown;
  }

  /** The commands of one segment of the chain, as steps of the run. */
  lemma ItemEffects(cmds: seq<Command>, rs: seq<Answer>, trace: seq<Abstract>, pages: PageSizes,
                    k: nat, base: Word, items: seq<Item>, i: nat) returns (link: Link)
    requires Follows(cmds, rs, trace, pages) && |cmds| == |rs| && Added(cmds, rs, k, base, items, i) && k + 2 < |trace|
    ensures var name := items[i].name;
      && link.flags == items[i].flags && name in trace[k + 2].dict && trace[k + 2].dict[name].name == name
      && (i > 0 ==> items[i - 1].name in trace[k].dict)
      && var offset := if i == 0 then base else NextOffset(trace[k].dict[items[i - 1].name]);
         MappedBy(Fresh(Anon, name, Range(offset, items[i].length), items[i].flags), trace[k + 2].dict[name], link, pages)
  {
    hide Conserved, Registered, Mapping, MappedBy;
    var a, b, c := trace[k], trace[k + 1], trace[k + 2];
    assert Effect(cmds[k], rs[k], a, b, pages);
    assert Effect(cmds[k + 1], rs[k + 1], b, c, pages);
    var offset := if i == 0 then base else NextOffset(a.dict[items[i - 1].name]);
    link := RegisteredThenMapped(items[i].name, Range(offset, items[i].length), items[i], a, b, c, pages);
  }

  /** The entries of the first `n` segments, each as it was when its mapping was done. */
  ghost predicate EntriesOf(vs: seq<Slot>, trace: seq<Abstract>, at: nat, items: seq<Item>, n: nat) {
    |vs| == n <= |items| && forall i | 0 <= i < n :: EntryAt(vs[i], trace, at + 2 * i + 2, items[i].name)
  }

  predicate EntryAt(v: Slot, trace: seq<Abstract>, k: nat, name: string) {
    k < |trace| && name in trace[k].dict && trace[k].dict[name] == v
  }

  /** The first `n` segments of the chain. */
  lemma {:induction false} ChainLinks(cmds: seq<Command>, rs: seq<Answer>, trace: seq<Abstract>, pages: PageSizes,
                                      at: nat, base: Word, items: seq<Item>, n: nat)
    returns (vs: seq<Slot>, links: seq<Link>)
    requires Follows(cmds, rs, trace, pages) && ChainAt(cmds, rs, at, base, items) && n <= |items|
    ensures EntriesOf(vs, trace, at, items, n) && ChainMapped(base, Lengths(items)[..n], vs, links, pages)
  {
    hide Follows, ChainAt, EntriesOf, ChainMapped, Lengths;
    if n == 0 {
      vs, links := [], [];
      EmptyChain(base, trace, at, items, pages);
      assert Lengths(items)[..n] == [];
    } else {
      vs, links := ChainLinks(cmds, rs, trace, pages, at, base, items, n - 1);
      vs, links := ChainStep(cmds, rs, trace, pages, at, base, items, n - 1, vs, links);
    }
  }

  lemma ChainStep(cmds: seq<Command>, rs: seq<Answer>, trace: seq<Abstract>, pages: PageSizes,
                  at: nat, base: Word, items: seq<Item>, i: nat, vs0: seq<Slot>, links0: seq<Link>)
    returns (vs: seq<Slot>, links: seq<Link>)
    requires Follows(cmds, rs, trace, pages) && ChainAt(cmds, rs, at, base, items) && i < |items|
    requires EntriesOf(vs0, trace, at, items, i) && ChainMapped(base, Lengths(items)[..i], vs0, links0, pages)
    ensures EntriesOf(vs, trace, at, items, i + 1) && ChainMapped(base, Lengths(items)[..i + 1], vs, links, pages)
  {
    hide Follows, ChainAt, Added, MappedBy, EntryAt, ChainMapped, NextOffset, Fresh;
    var k := at + 2 * i;
    ItemAdded(cmds, rs, trace, pages, at, base, items, i);
    var link := ItemEffects(cmds, rs, trace, pages, k, base, items, i);
    var v := trace[k + 2].dict[items[i].name];
    EntryIs(v, trace, k + 2, items[i].name);
    if i > 0 {
      assert EntryAt(vs0[i - 1], trace, at + 2 * (i - 1) + 2, items[i - 1].name);
      EntryIs(vs0[i - 1], trace, k, items[i - 1].name);
    }
    ChainGrows(base, Lengths(items)[..i], items[i], vs0, links0, v, link, pages);
    assert Lengths(items)[..i + 1] == Lengths(items)[..i] + [items[i].length];
    vs, links := vs0 + [v], links0 + [link];
  }

  lemma ItemAdded(cmds: seq<Command>, rs: seq<Answer>, trace: seq<Abstract>, pages: PageSizes,
                  at: nat, base: Word, items: seq<Item>, i: nat)
    requires Follows(cmds, rs, trace, pages) && ChainAt(cmds, rs, at, base, items) && i < |items|
    ensures |cmds| == |rs| && at + 2 * i + 2 < |trace| && Added(cmds, rs, at + 2 * i, base, items, i)
  {
    hide Effect, Conserved, Added;
  }

  lemma EmptyChain(base: Word, trace: seq<Abstract>, at: nat, items: seq<Item>, pages: PageSizes)
    ensures ChainMapped(base, [], [], [], pages) && EntriesOf([], trace, at, items, 0)
  {
  }

  lemma EntryIs(v: Slot, trace: seq<Abstract>, k: nat, name: string)
    requires k < |trace| && name in trace[k].dict
    ensures EntryAt(v, trace, k, name) <==> trace[k].dict[name] == v
  {
  }

  lemma ChainGrows(base: Word, lengths: seq<Word>, item: Item, vs: seq<Slot>, links: seq<Link>, v: Slot, link: Link, pages: PageSizes)
    requires ChainMapped(base, lengths, vs, links, pages)
    requires v.name == item.name && link.flags == item.flags
    requires var offset := if vs == [] then base else NextOffset(vs[|vs| - 1]);
      MappedBy(Fresh(Anon, item.name, Range(offset, item.length), item.flags), v, link, pages)
    ensures ChainMapped(base, lengths + [item.length], vs + [v], links + [link], pages)
  {
    hide MappedBy, NextOffset;
    var lengths', vs', links' := lengths + [item.length], vs + [v], links + [link];
    forall i | 0 <= i < |vs'|
      ensures MappedBy(LinkEntry(base, lengths', vs', links', i), vs'[i], links'[i], pages)
    {
      if i < |vs| {
        assert MappedBy(LinkEntry(base, lengths, vs, links, i), vs[i], links[i], pages);
        assert LinkEntry(base, lengths', vs', links', i) == LinkEntry(base, lengths, vs, links, i);
      }
    }
  }

  /** In every run, segments that are registered after one another with `offset=`, each mapped before the next, tile memory. */
  lemma ChainOfCommandsTiles(cmds: seq<Command>, rs: seq<Answer>, trace: seq<Abstract>, pages: PageSizes,
                             at: nat, base: Word, items: seq<Item>) returns (vs: seq<Slot>)
    requires UsablePages(pages) && base != 0 && pages.base > 0 && Multiple(base, pages.base)
    requires Follows(cmds, rs, trace, pages) && ChainAt(cmds, rs, at, base, items)
    ensures EntriesOf(vs, trace, at, items, |items|) && Tiles(vs, base, Lengths(items), pages.base)
  {
    hide Follows, ChainAt, UsablePages, Tiles, EntriesOf, ChainMapped;
    var links;
    vs, links := ChainLinks(cmds, rs, trace, pages, at, base, items, |items|);
    assert Lengths(items)[..|items|] == Lengths(items);
    ChainTiles(base, Lengths(items), vs, links, pages);
  }
}
