/** Node masks: bit sets over an array of 64-bit words, and the lists of node ids read into and out of them. */
module NodeMask {
  import opened Words
  import opened Numerals

  /** A node's bit in a mask. */
  predicate HasBit(words: seq<Word>, node: nat) {
    node / 64 < |words| && Bit(words[node / 64], node % 64)
  }

  lemma SetOneBit(w: Word, j: nat, i: nat)
    requires j < 64 && i < 64
    ensures Pow2(j) < W64 && Or(w, Pow2(j)) < W64 && Bit(Or(w, Pow2(j)), i) == (Bit(w, i) || i == j)
  {
    Pow2BelowWord(j);
    Pow2Is64();
    hide Or, Bit, Pow2;
    OrBound(w, Pow2(j), 64);
    BitOr(w, Pow2(j), i);
    BitOfPow2(j, i);
  }

  lemma ClearOneBit(w: Word, j: nat, i: nat)
    requires j < 64 && i < 64
    ensures Pow2(j) < W64 && And(w, Not(Pow2(j))) < W64 && Bit(And(w, Not(Pow2(j))), i) == (Bit(w, i) && i != j)
  {
    Pow2BelowWord(j);
    Pow2Is64();
    hide And, Bit, Pow2;
    AndBound(w, Not(Pow2(j)));
    BitAnd(w, Not(Pow2(j)), i);
    BitComplement(Pow2(j), 64, i);
    BitOfPow2(j, i);
  }

  /** `w & (1UL << j)` is nonzero exactly when the bit is set. */
  lemma TestOneBit(w: Word, j: nat)
    requires j < 64
    ensures And(w, Pow2(j)) != 0 <==> Bit(w, j)
  {
  }

  /** Masks of the same size with the same nodes have the same words. */
  lemma SameNodesSameWords(a: seq<Word>, b: seq<Word>)
    requires |a| == |b| && forall node: nat | node < 64 * |a| :: HasBit(a, node) == HasBit(b, node)
    ensures a == b
  {
    Pow2Is64();
    forall k | 0 <= k < |a|
      ensures a[k] == b[k]
    {
      forall i: nat | i < 64
        ensures Bit(a[k], i) == Bit(b[k], i)
      {
        DivModUnique(64 * k + i, 64, k, i);
        assert HasBit(a, 64 * k + i) == HasBit(b, 64 * k + i);
      }
      BitsDetermine(a[k], b[k], 64);
    }
  }

  function Nodes(words: seq<Word>): set<nat> {
    set node: nat | node < 64 * |words| && HasBit(words, node)
  }

  class Mask {
    const n: array<Word>

    ghost function View(): set<nat>
      reads n
    {
      Nodes(n[..])
    }

    constructor (words: nat)
      ensures n.Length == words && fresh(n) && View() == {}
    {
      n := new Word[words](_ => 0);
      new;
      forall node: nat | node < 64 * words
        ensures !HasBit(n[..], node)
      {
        BitOfZero(node % 64);
      }
    }

    method Zero()
      modifies n
      ensures View() == {}
    {
      var i := 0;
      while i < n.Length
        invariant i <= n.Length && forall k | 0 <= k < i :: n[k] == 0
      {
        n[i] := 0;
        i := i + 1;
      }
      forall node: nat | node < 64 * n.Length
        ensures !HasBit(n[..], node)
      {
        BitOfZero(node % 64);
      }
    }

    method Set(node: nat)
      requires node < 64 * n.Length
      modifies n
      ensures View() == old(View()) + {node}
    {
      ghost var before := n[..];
      SetOneBit(n[node / 64], node % 64, node % 64);
      n[node / 64] := Or(n[node / 64], Pow2(node % 64));
      forall m: nat | m < 64 * n.Length
        ensures HasBit(n[..], m) <==> HasBit(before, m) || m == node
      {
        if m / 64 == node / 64 {
          SetOneBit(before[m / 64], node % 64, m % 64);
        }
      }
    }

    method Clr(node: nat)
      requires node < 64 * n.Length
      modifies n
      ensures View() == old(View()) - {node}
    {
      ghost var before := n[..];
      ClearOneBit(n[node / 64], node % 64, node % 64);
      n[node / 64] := And(n[node / 64], Not(Pow2(node % 64)));
      forall m: nat | m < 64 * n.Length
        ensures HasBit(n[..], m) <==> HasBit(before, m) && m != node
      {
        if m / 64 == node / 64 {
          ClearOneBit(before[m / 64], node % 64, m % 64);
        }
      }
    }

    /** Any `int` may be asked about; a negative one is beyond every mask when taken as unsigned. */
    function IsSet(node: int): (r: bool)
      reads n
      ensures r <==> node in View()
    {
      if node < 0 || node >= 64 * n.Length then false
      else
        TestOneBit(n[node / 64], node % 64);
        And(n[node / 64], Pow2(node % 64)) != 0
    }

    method Equal(b: Mask) returns (r: bool)
      requires b.n.Length == n.Length
      ensures r <==> View() == b.View()
    {
      var i := 0;
      while i < n.Length
        invariant i <= n.Length && n[..i] == b.n[..i]
      {
        if n[i] != b.n[i] {
          if View() == b.View() {
            forall node: nat | node < 64 * n.Length
              ensures HasBit(n[..], node) == HasBit(b.n[..], node)
            {
              assert node in View() <==> node in b.View();
            }
            SameNodesSameWords(n[..], b.n[..]);
          }
          return false;
        }
        i := i + 1;
      }
      assert n[..] == n[..n.Length] == b.n[..];
      r := true;
    }

    /** get_current_nodeid_list(): the ids of the allowed nodes, into `fromids`. */
    method NodeIdList(fromids: array<nat>, maxNode: nat) returns (nrNodes: nat)
      requires |Enumerated(n[..], maxNode + 1)| <= fromids.Length
      modifies fromids
      ensures nrNodes <= fromids.Length && fromids[..nrNodes] == Enumerated(n[..], maxNode + 1)
    {
      hide HasBit, Nodes;
      ghost var words := n[..];
      nrNodes := 0;
      var node := 0;
      while node <= maxNode
        invariant node <= maxNode + 1 && n[..] == words && nrNodes == |Enumerated(words, node)| <= fromids.Length
        invariant fromids[..nrNodes] == Enumerated(words, node)
      {
        var allowed := IsSet(node);
        NodeInMask(words, node);
        EnumeratedGrows(words, node + 1, maxNode + 1);
        if allowed {
          fromids[nrNodes] := node;
          nrNodes := nrNodes + 1;
        }
        node := node + 1;
      }
    }
  }

  lemma NodeInMask(words: seq<Word>, node: nat)
    ensures node in Nodes(words) <==> HasBit(words, node)
  {
  }

  /** The nodes below `bound` in a mask, from the lowest up. */
  function Enumerated(words: seq<Word>, bound: nat): seq<nat> {
    if bound == 0 then [] else Enumerated(words, bound - 1) + if HasBit(words, bound - 1) then [bound - 1] else []
  }

  lemma {:induction false} EnumeratedGrows(words: seq<Word>, bound: nat, more: nat)
    requires bound <= more
    ensures |Enumerated(words, bound)| <= |Enumerated(words, more)|
    decreases more
  {
    if bound < more { EnumeratedGrows(words, bound, more - 1); }
  }

  predicate Increasing(s: seq<nat>) {
    forall i, j | 0 <= i < j < |s| :: s[i] < s[j]
  }

  lemma {:induction false} EnumeratedExactlyInOrder(words: seq<Word>, bound: nat)
    ensures forall node: nat :: node in Enumerated(words, bound) <==> node in Nodes(words) && node < bound
    ensures Increasing(Enumerated(words, bound))
  {
    if bound > 0 {
      EnumeratedExactlyInOrder(words, bound - 1);
      var e, full := Enumerated(words, bound - 1), Enumerated(words, bound);
      var last := if HasBit(words, bound - 1) then [bound - 1] else [];
      NodeInMask(words, bound - 1);
      assert full == e + last;
      assert forall node: nat :: node in full <==> node in e || node in last;
      forall i, j | 0 <= i < j < |full|
        ensures full[i] < full[j]
      {
        assert full[i] == e[i] && full[i] in e;
        assert full[i] < bound - 1;
        if j < |e| { assert full[j] == e[j]; }
      }
    }
  }

  /** Conversion of an unsigned long to int. */
  function AsInt(v: Word): (i: int)
    ensures -0x8000_0000 <= i < 0x8000_0000 && (v < 0x8000_0000 ==> i == v)
  {
    if v % W32 < 0x8000_0000 then v % W32 else v % W32 - W32
  }

  /** `Stray`: a node id that became negative passed the upper limit and is used as an index. */
  datatype NodeList = Listed(ids: seq<nat>) | Refused | Stray

  lemma StrtoulOfDigits(digits: string, rest: string)
    requires digits != "" && AllDigits(digits, 10) && !StartsNumber(rest, 10)
    ensures Strtoul(digits + rest, 10) == (Saturated(Fold(digits, 10, 0)), rest)
  {
    var s := digits + rest;
    assert DigitValue(digits[0]) < 10;
    assert s[0] == digits[0] && IsDigit(s[0]);
    ReadThrough(digits, rest, 10, 0);
  }

  /** The digits at the front of a text, and the rest. */
  function SplitDigits(s: string): (r: (string, string))
    ensures r.0 + r.1 == s && AllDigits(r.0, 10) && !StartsNumber(r.1, 10) && (StartsNumber(s, 10) ==> r.0 != "")
  {
    if StartsNumber(s, 10) then
      var (digits, rest) := SplitDigits(s[1..]);
      ([s[0]] + digits, rest)
    else ("", s)
  }

  function NumberAt(s: string): (r: (int, string))
    requires s != "" && IsDigit(s[0])
    ensures |r.1| < |s|
  {
    StrtoulOfDigits(SplitDigits(s).0, SplitDigits(s).1);
    var (value, next) := Strtoul(s, 10);
    (AsInt(value), next)
  }

  function Prefixed(ids: seq<nat>, r: NodeList): NodeList {
    if r.Listed? then Listed(ids + r.ids) else r
  }

  /** What a comma-separated list of node ids stands for. */
  function ReadNodes(args: string, maxNode: nat): NodeList
    decreases |args|
  {
    if args == "" || !IsDigit(args[0]) then Refused
    else
      var (node, next) := NumberAt(args);
      if node > maxNode then Refused
      else if node < 0 then Stray
      else if next == "" then Listed([node])
      else if next[0] != ',' then Refused
      else Prefixed([node], ReadNodes(next[1..], maxNode))
  }

  function SetOf(ids: seq<nat>): set<nat> {
    set id | id in ids
  }

  lemma NoIds()
    ensures SetOf([]) == {} && forall r :: Prefixed([], r) == r
  {
  }

  lemma PrefixedTwice(ids: seq<nat>, id: nat, r: NodeList)
    ensures Prefixed(ids, Prefixed([id], r)) == Prefixed(ids + [id], r) && Prefixed(ids, Listed([id])) == Listed(ids + [id])
    ensures SetOf(ids + [id]) == SetOf(ids) + {id}
  {
  }

  /** get_nodemask(): the ids read, duplicates included, and the mask of them. */
  method GetNodemask(args: string, maxNode: nat, words: nat) returns (r: NodeList, mask: Mask)
    requires maxNode < 64 * words
    ensures r == ReadNodes(args, maxNode) && fresh(mask) && fresh(mask.n)
    ensures r.Listed? ==> mask.View() == SetOf(r.ids)
  {
    hide HasBit, Nodes, NumberAt, SetOf;
    mask := new Mask(words);
    var rest := args;
    var ids: seq<nat> := [];
    var done := false;
    r := Refused;
    NoIds();
    while !done && rest != "" && IsDigit(rest[0])
      invariant fresh(mask) && fresh(mask.n) && mask.n.Length == words
      invariant mask.View() == SetOf(ids)
      invariant !done ==> ReadNodes(args, maxNode) == Prefixed(ids, ReadNodes(rest, maxNode)) && r == Refused
      invariant done ==> ReadNodes(args, maxNode) == r && (r.Listed? ==> r.ids == ids)
      decreases if done then 0 else 1, |rest|
    {
      var (node, next) := NumberAt(rest);
      ghost var others := if next == "" then Refused else ReadNodes(next[1..], maxNode);
      done := true;
      if node < 0 {
        r := Stray;
      } else if node <= maxNode {
        PrefixedTwice(ids, node, others);
        mask.Set(node);
        ids := ids + [node];
        if next == "" {
          r := Listed(ids);
        } else if next[0] == ',' {
          rest, done := next[1..], false;
        }
      }
    }
  }

  /** Numerals with commas between them. */
  function Joined(numerals: seq<string>): string
    requires numerals != []
  {
    if |numerals| == 1 then numerals[0] else numerals[0] + "," + Joined(numerals[1..])
  }

  predicate AreNumerals(numerals: seq<string>) {
    numerals != [] && forall i | 0 <= i < |numerals| :: numerals[i] != "" && AllDigits(numerals[i], 10)
  }

  function IdOf(numeral: string): int {
    AsInt(Saturated(Fold(numeral, 10, 0)))
  }

  lemma FirstNumber(numeral: string, tail: string)
    requires numeral != "" && AllDigits(numeral, 10) && (tail == "" || tail[0] == ',')
    ensures IsDigit((numeral + tail)[0]) && NumberAt(numeral + tail) == (IdOf(numeral), tail)
  {
    StrtoulOfDigits(numeral, tail);
    assert DigitValue(numeral[0]) < 10;
  }

  /** A list is accepted exactly when it is numerals joined by commas whose ids, as ints, are all in range. */
  lemma {:induction false} ListIsReadExactly(numerals: seq<string>, maxNode: nat)
    requires AreNumerals(numerals)
    ensures var r := ReadNodes(Joined(numerals), maxNode);
      if forall i | 0 <= i < |numerals| :: 0 <= IdOf(numerals[i]) <= maxNode
      then r.Listed? && |r.ids| == |numerals| && forall i | 0 <= i < |numerals| :: r.ids[i] == IdOf(numerals[i])
      else !r.Listed?
    decreases |numerals|
  {
    hide Strtoul, Fold, DigitValue;
    var tail := if |numerals| == 1 then "" else "," + Joined(numerals[1..]);
    assert Joined(numerals) == numerals[0] + tail;
    FirstNumber(numerals[0], tail);
    hide NumberAt, IdOf;
    if |numerals| > 1 {
      ListIsReadExactly(numerals[1..], maxNode);
      assert tail[1..] == Joined(numerals[1..]);
    }
  }

  lemma NumeralInFront(args: string) returns (digits: string, rest: string)
    requires args != "" && IsDigit(args[0])
    ensures digits != "" && AllDigits(digits, 10) && args == digits + rest && NumberAt(args).1 == rest
  {
    digits, rest := SplitDigits(args).0, SplitDigits(args).1;
    StrtoulOfDigits(digits, rest);
    hide Strtoul, Fold, AllDigits, SplitDigits;
  }

  lemma {:induction false} OnlyListsAreRead(args: string, maxNode: nat) returns (numerals: seq<string>)
    requires ReadNodes(args, maxNode).Listed?
    ensures AreNumerals(numerals) && args == Joined(numerals)
    decreases |args|
  {
    hide NumberAt, AllDigits;
    var digits, rest := NumeralInFront(args);
    numerals := [digits];
    if rest != "" {
      var others := OnlyListsAreRead(rest[1..], maxNode);
      numerals := [digits] + others;
      assert numerals[1..] == others;
      assert rest == "," + rest[1..];
    }
  }

  /**
   * One id is accepted if and only if it is below 2^64 and its low 32 bits are at most the last node, and read as those bits.
   * From 2^64 on it saturates, which as an int is -1; that and every other negative int is used as an index.
   */
  lemma OneIdIsReadModuloInt(numeral: string, maxNode: nat)
    requires numeral != "" && AllDigits(numeral, 10) && maxNode < 0x8000_0000
    ensures var (id, r) := (Fold(numeral, 10, 0), ReadNodes(numeral, maxNode));
      && (r.Listed? <==> id < W64 && id % W32 <= maxNode)
      && (r.Listed? ==> r.ids == [id % W32])
      && (r.Stray? <==> id >= W64 || id % W32 >= 0x8000_0000)
  {
    assert numeral + "" == numeral;
    StrtoulOfDigits(numeral, "");
  }

  /** 2^32 is read as node 0. */
  lemma WrappedIdIsAccepted()
    ensures ReadNodes("4294967296", 1) == Listed([0])
  {
    var s := "4294967296";
    FoldOfWrapped();
    hide Fold, ReadNodes;
    assert AllDigits(s, 10);
    OneIdIsReadModuloInt(s, 1);
  }

  lemma FoldOfWrapped()
    ensures Fold("4294967296", 10, 0) == W32
  {
    var s := "4294967296";
    assert Fold(s[8..], 10, 42949672) == Fold(s[9..], 10, 429496729) == 4294967296;
    assert Fold(s[4..], 10, 4294) == Fold(s[6..], 10, 429496) == Fold(s[8..], 10, 42949672);
    assert Fold(s, 10, 0) == Fold(s[2..], 10, 42) == Fold(s[4..], 10, 4294);
  }
}
