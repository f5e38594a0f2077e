// acism_create of contrib/aho-corasick/acism_create.c: tree, links, numbers and tables together,
// and what the finished table says about the patterns.
module AcCreate {
  import opened Common
  import opened AcSpec
  import opened AcChain
  import opened AcTrie
  import opened AcBack
  import opened AcLinks
  import opened AcTable
  import opened AcHash
  import opened AcPack
  import opened AcInterleave
  import opened AcFillHash
  import opened AcFill

  // ---- bitwid ------------------------------------------------------------------------------------

  /** The number of binary digits of u. */
  function BitWidth(u: nat): nat {
    if u == 0 then 0 else 1 + BitWidth(u / 2)
  }

  lemma {:induction false} BitWidthBounds(u: nat)
    ensures u < Pow2(BitWidth(u))
    ensures u > 0 ==> BitWidth(u) > 0 && Pow2(BitWidth(u) - 1) <= u
  {
    if u > 0 {
      BitWidthBounds(u / 2);
    }
  }

  lemma {:induction false} BitWidthShift(u: nat, k: nat)
    requires HighBits(u, k) > 0
    ensures BitWidth(u) == k + BitWidth(HighBits(u, k))
  {
    if k > 0 {
      BitWidthShift(u / 2, k - 1);
    }
  }

  lemma {:induction false} HighBitsAdd(u: nat, j: nat, k: nat)
    ensures HighBits(u, j + k) == HighBits(HighBits(u, j), k)
  {
    if j > 0 {
      HighBitsAdd(u / 2, j - 1, k);
    }
  }

  lemma ShiftTwo(u: nat)
    ensures HighBits(u, 2) == u / 4
  {
    assert HighBits(u / 2, 1) == u / 2 / 2;
  }

  lemma ShiftFour(u: nat)
    ensures HighBits(u, 4) == u / 16
  {
    HighBitsAdd(u, 2, 2);
    ShiftTwo(u);
    ShiftTwo(u / 4);
  }

  lemma ShiftEight(u: nat)
    ensures HighBits(u, 8) == u / 256
  {
    HighBitsAdd(u, 4, 4);
    ShiftFour(u);
    ShiftFour(u / 16);
  }

  lemma ShiftSixteen(u: nat)
    ensures HighBits(u, 16) == u / 65536
  {
    HighBitsAdd(u, 8, 8);
    ShiftEight(u);
    ShiftEight(u / 256);
  }

  lemma WidthByTwo(u: nat)
    requires u >= 4
    ensures BitWidth(u) == 2 + BitWidth(u / 4)
  {
    ShiftTwo(u);
    BitWidthShift(u, 2);
  }

  lemma WidthByFour(u: nat)
    requires u >= 16
    ensures BitWidth(u) == 4 + BitWidth(u / 16)
  {
    ShiftFour(u);
    BitWidthShift(u, 4);
  }

  lemma WidthByEight(u: nat)
    requires u >= 256
    ensures BitWidth(u) == 8 + BitWidth(u / 256)
  {
    ShiftEight(u);
    BitWidthShift(u, 8);
  }

  lemma WidthBySixteen(u: nat)
    requires u >= 65536
    ensures BitWidth(u) == 16 + BitWidth(u / 65536)
  {
    ShiftSixteen(u);
    BitWidthShift(u, 16);
  }

  lemma WidthBelowFour(u: nat)
    requires 0 < u < 4
    ensures BitWidth(u) == if u >= 2 then 2 else 1
  {
    assert BitWidth(u / 2) == u / 2;
  }

  /** bitwid: halving the range of the highest bit four times. */
  method Bitwid(u0: nat) returns (ret: nat)
    requires u0 < 0x1_0000_0000
    ensures ret == BitWidth(u0)
  {
    if u0 == 0 {
      return 0;
    }
    var u := u0;
    ret := 1;
    ghost var rest := BitWidth(u);
    if u >= 0x10000 {
      WidthBySixteen(u);
      u, ret, rest := u / 0x10000, ret + 16, rest - 16;
    }
    assert ret - 1 + rest == BitWidth(u0) && rest == BitWidth(u) && 0 < u < 0x10000;
    if u >= 0x100 {
      WidthByEight(u);
      u, ret, rest := u / 0x100, ret + 8, rest - 8;
    }
    assert ret - 1 + rest == BitWidth(u0) && rest == BitWidth(u) && 0 < u < 0x100;
    if u >= 0x10 {
      WidthByFour(u);
      u, ret, rest := u / 0x10, ret + 4, rest - 4;
    }
    assert ret - 1 + rest == BitWidth(u0) && rest == BitWidth(u) && 0 < u < 0x10;
    if u >= 4 {
      WidthByTwo(u);
      u, ret, rest := u / 4, ret + 2, rest - 2;
    }
    WidthBelowFour(u);
    if u >= 2 {
      ret := ret + 1;
    }
  }

  // ---- What the table says --------------------------------------------------------------------------

  /** The finished tree: links as add_backlinks made them, those to the root dropped at states. */
  ghost predicate Finished(nodes: seq<Node>, path: seq<Str>, at: map<Str, nat>, ps: seq<Str>, placed: set<nat>,
      tranSize: nat) {
    && Trie(nodes, path, at, ps) && Packed(nodes, path, at, placed, tranSize) && Sound(nodes, |path|)
    && (forall i {:trigger FinalLink(nodes, path, at, ps, i)} | 0 < i < |path| :: FinalLink(nodes, path, at, ps, i))
    && (forall i | 0 <= i < |path| && i !in placed :: nodes[i].state == 0)
    && nodes[0].back == NULL
  }

  ghost predicate FinalLink(nodes: seq<Node>, path: seq<Str>, at: map<Str, nat>, ps: seq<Str>, i: nat)
    requires i < |path| <= |nodes|
  {
    && path[i] != [] && LinkOf(ps, path[i]) in at
    && nodes[i].isSuffix == SuffixFlag(ps, path[i])
    && (nodes[i].child != 0 ==> nodes[i].back == if LinkOf(ps, path[i]) == [] then NULL else at[LinkOf(ps, path[i])])
  }

  /** Every word of tranv is as it should be, and tranv[0] looks like no back link. */
  ghost predicate Filled(ws: seq<nat>, nodes: seq<Node>, path: seq<Str>, at: map<Str, nat>, placed: set<nat>, bits: nat,
      tranSize: nat)
    requires Sound(nodes, |path|)
  {
    && (forall q: nat, a: nat | q < |ws| && 0 < a && SlotIs(nodes, path, at, placed, q, a) ::
        ws[q] == Pack(ChildEntry(nodes, a, tranSize), bits))
    && (forall q: nat, i: nat | q < |ws| && i < |path| && BaseIs(nodes, placed, q, i) && nodes[i].back != NULL ::
        ws[q] == Pack(BackEntry(nodes, i), bits))
    && (forall q: nat | 0 < q < |ws| && Free(nodes, path, at, placed, q) :: ws[q] == 0)
    && |ws| > 0 && ws[0] == 1
  }

  /** The fields of every entry fit their bits. */
  ghost predicate FieldsFit(ps: seq<Str>, bits: nat, tranSize: nat, nsyms: nat) {
    && 0 < bits <= 30 && nsyms <= Pow2(bits) && tranSize + |ps| <= Pow2(30 - bits)
  }

  /** A state's number, and 0 for everything that has none. */
  ghost function NumberOf(nodes: seq<Node>, at: map<Str, nat>): Str -> nat {
    s => if s in at && at[s] < |nodes| then nodes[at[s]].state else 0
  }

  /** States with children have a base of their own; the root has 0 in any case. */
  lemma StateIndex(nodes: seq<Node>, path: seq<Str>, at: map<Str, nat>, ps: seq<Str>, placed: set<nat>, tranSize: nat,
      s: Str)
    requires Finished(nodes, path, at, ps, placed, tranSize) && IsState(ps, s)
    ensures s in at && NumberOf(nodes, at)(s) == nodes[at[s]].state
    ensures s != [] ==> at[s] in placed && BaseIs(nodes, placed, nodes[at[s]].state, at[s])
    ensures s == [] ==> at[s] == 0
    ensures NumberOf(nodes, at)(s) < tranSize
  {
    if s != [] {
      StateIsNode(ps, s);
      assert Known(ps, s);
      ChildIffState(nodes, path, at, ps, at[s]);
      assert BaseIs(nodes, placed, nodes[at[s]].state, at[s]);
    } else {
      assert Known(ps, s);
      assert path[0] == [];
    }
  }

  lemma NumbersDiffer(nodes: seq<Node>, path: seq<Str>, at: map<Str, nat>, ps: seq<Str>, placed: set<nat>,
      tranSize: nat)
    requires Finished(nodes, path, at, ps, placed, tranSize)
    ensures Numbered(ps, NumberOf(nodes, at))
  {
    var base := NumberOf(nodes, at);
    StateIndex(nodes, path, at, ps, placed, tranSize, []);
    forall s, t {:trigger OwnNumber(ps, base, s, t)} ensures OwnNumber(ps, base, s, t) {
      if IsState(ps, s) && IsState(ps, t) && base(s) == base(t) {
        StateIndex(nodes, path, at, ps, placed, tranSize, s);
        StateIndex(nodes, path, at, ps, placed, tranSize, t);
        if s != [] {
          RootPlaced(nodes, path, at, ps, placed, tranSize, s);
        }
        if t != [] {
          RootPlaced(nodes, path, at, ps, placed, tranSize, t);
        }
        assert path[at[s]] == s && path[at[t]] == t;
      }
    }
  }

  lemma RootPlaced(nodes: seq<Node>, path: seq<Str>, at: map<Str, nat>, ps: seq<Str>, placed: set<nat>, tranSize: nat,
      s: Str)
    requires Finished(nodes, path, at, ps, placed, tranSize) && s in at && s != []
    ensures 0 in placed && BaseIs(nodes, placed, 0, 0)
  {
    BranchKnown(nodes, path, at, ps, [], at[s]);
    FirstOf(nodes, path, at, 0);
    assert HasKid(at, [], s[0]);
  }

  /** Entries fit, so they are read back as they were meant. */
  lemma EntryFits(nodes: seq<Node>, path: seq<Str>, at: map<Str, nat>, ps: seq<Str>, placed: set<nat>, tranSize: nat,
      bits: nat, nsyms: nat, a: nat)
    requires Finished(nodes, path, at, ps, placed, tranSize) && FieldsFit(ps, bits, tranSize, nsyms) && 0 < a < |path|
             && nodes[a].sym < nsyms
    ensures Unpack(Pack(ChildEntry(nodes, a, tranSize), bits), bits) == ChildEntry(nodes, a, tranSize)
    ensures nodes[a].child != 0 ==> nodes[a].state < tranSize
  {
    if nodes[a].child != 0 {
      assert BaseIs(nodes, placed, nodes[a].state, a);
    }
    assert nodes[a].matched <= |ps|;
    PackRoundTrip(ChildEntry(nodes, a, tranSize), bits);
  }

  lemma BackFits(nodes: seq<Node>, path: seq<Str>, at: map<Str, nat>, ps: seq<Str>, placed: set<nat>, tranSize: nat,
      bits: nat, nsyms: nat, i: nat)
    requires Finished(nodes, path, at, ps, placed, tranSize) && FieldsFit(ps, bits, tranSize, nsyms) && i < |path|
             && nodes[i].back != NULL
    ensures Unpack(Pack(BackEntry(nodes, i), bits), bits) == BackEntry(nodes, i)
  {
    var b: nat := nodes[i].back;
    assert b in placed ==> BaseIs(nodes, placed, nodes[b].state, b);
    PackRoundTrip(BackEntry(nodes, i), bits);
  }

  /** What a table holds and how big it is. */
  ghost predicate Loaded(tab: Table, nodes: seq<Node>, path: seq<Str>, at: map<Str, nat>, ps: seq<Str>,
      placed: set<nat>, nsyms: nat) {
    && Finished(nodes, path, at, ps, placed, tab.tranSize) && FieldsFit(ps, tab.symBits, tab.tranSize, nsyms)
    && Filled(tab.tranv, nodes, path, at, placed, tab.symBits, tab.tranSize) && |tab.tranv| >= tab.tranSize + nsyms
    && forall a | 0 <= a < |path| :: nodes[a].sym < nsyms
  }

  lemma SlotWord(tab: Table, nodes: seq<Node>, path: seq<Str>, at: map<Str, nat>, ps: seq<Str>, placed: set<nat>,
      nsyms: nat, q: nat, a: nat)
    requires Loaded(tab, nodes, path, at, ps, placed, nsyms) && SlotIs(nodes, path, at, placed, q, a) && q < |tab.tranv|
    ensures 0 < a < |path| && TranAt(tab, q) == ChildEntry(nodes, a, tab.tranSize)
  {
    assert path[0] == [];
    EntryFits(nodes, path, at, ps, placed, tab.tranSize, tab.symBits, nsyms, a);
  }

  lemma BackWord(tab: Table, nodes: seq<Node>, path: seq<Str>, at: map<Str, nat>, ps: seq<Str>, placed: set<nat>,
      nsyms: nat, q: nat, i: nat)
    requires Loaded(tab, nodes, path, at, ps, placed, nsyms) && BaseIs(nodes, placed, q, i) && nodes[i].back != NULL
             && q < |tab.tranv|
    ensures i < |path| && TranAt(tab, q) == BackEntry(nodes, i)
  {
    BackFits(nodes, path, at, ps, placed, tab.tranSize, tab.symBits, nsyms, i);
  }

  lemma FreeWord(tab: Table, nodes: seq<Node>, path: seq<Str>, at: map<Str, nat>, ps: seq<Str>, placed: set<nat>,
      nsyms: nat, q: nat)
    requires Loaded(tab, nodes, path, at, ps, placed, nsyms) && 0 < q < |tab.tranv| && Free(nodes, path, at, placed, q)
    ensures TranAt(tab, q) == Tran(0, 0, false, false)
  {
    EmptyWord(tab.symBits);
  }

  /** What the entry of a node says about its string. */
  lemma EntryMeans(nodes: seq<Node>, path: seq<Str>, at: map<Str, nat>, ps: seq<Str>, placed: set<nat>, tranSize: nat,
      a: nat)
    requires Finished(nodes, path, at, ps, placed, tranSize) && 0 < a < |path|
    ensures var e := ChildEntry(nodes, a, tranSize);
            && (e.isMatch <==> path[a] in ps)
            && (e.hasSuffix <==> SuffixFlag(ps, path[a]))
            && (IsState(ps, path[a]) ==> e.next == nodes[a].state < tranSize)
            && (!IsState(ps, path[a]) && path[a] in ps ==> e.next == tranSize + StrNo(ps, path[a]))
  {
    assert FinalLink(nodes, path, at, ps, a);
    ChildIffState(nodes, path, at, ps, a);
    if nodes[a].child != 0 {
      assert BaseIs(nodes, placed, nodes[a].state, a);
    }
  }

  /** The entry of a child that is there. */
  lemma ChildThere(tab: Table, nodes: seq<Node>, path: seq<Str>, at: map<Str, nat>, ps: seq<Str>, placed: set<nat>,
      nsyms: nat, s: Str, c: nat)
    requires Loaded(tab, nodes, path, at, ps, placed, nsyms)
    requires IsState(ps, s) && 0 < c < nsyms && IsNode(ps, s + [c])
    ensures ChildEncoded(tab, Built(ps), NumberOf(nodes, at), s, c)
  {
    var q, e, next := KidEntry(tab, nodes, path, at, ps, placed, nsyms, s, c, s + [c]);
    ChildFromEntry(tab, ps, NumberOf(nodes, at), s, c, q, e);
  }

  lemma KidEntry(tab: Table, nodes: seq<Node>, path: seq<Str>, at: map<Str, nat>, ps: seq<Str>, placed: set<nat>,
      nsyms: nat, s: Str, c: nat, kid: Str) returns (q: nat, e: Tran, next: nat)
    requires Loaded(tab, nodes, path, at, ps, placed, nsyms)
    requires IsState(ps, s) && 0 < c < nsyms && IsNode(ps, kid) && kid == s + [c]
    ensures q == NumberOf(nodes, at)(s) + c && q < |tab.tranv| && TranAt(tab, q) == e && e.sym == c
    ensures (e.isMatch <==> kid in ps) && (e.hasSuffix <==> SuffixFlag(ps, kid)) && next == NumberOf(nodes, at)(kid)
    ensures IsState(ps, kid) ==> e.next == next < tab.tranSize
    ensures !IsState(ps, kid) && kid in ps ==> e.next == tab.tranSize + StrNo(ps, kid)
  {
    var a;
    q, a := KidSlotOf(nodes, path, at, ps, placed, tab.tranSize, s, c);
    SlotWord(tab, nodes, path, at, ps, placed, nsyms, q, a);
    EntryMeans(nodes, path, at, ps, placed, tab.tranSize, a);
    e, next := ChildEntry(nodes, a, tab.tranSize), nodes[a].state;
  }

  lemma ChildFromEntry(tab: Table, ps: seq<Str>, base: Str -> nat, s: Str, c: nat, q: nat, e: Tran)
    requires q == base(s) + c < |tab.tranv| && TranAt(tab, q) == e && e.sym == c && IsNode(ps, s + [c])
    requires (e.isMatch <==> s + [c] in ps) && (e.hasSuffix <==> SuffixFlag(ps, s + [c]))
    requires IsState(ps, s + [c]) ==> e.next == base(s + [c]) < tab.tranSize
    requires !IsState(ps, s + [c]) && s + [c] in ps ==> e.next == tab.tranSize + StrNo(ps, s + [c])
    ensures ChildEncoded(tab, Built(ps), base, s, c)
  {
  }

  lemma KidSlotOf(nodes: seq<Node>, path: seq<Str>, at: map<Str, nat>, ps: seq<Str>, placed: set<nat>, tranSize: nat,
      s: Str, c: nat) returns (q: nat, a: nat)
    requires Finished(nodes, path, at, ps, placed, tranSize) && IsState(ps, s) && IsNode(ps, s + [c])
    ensures q == NumberOf(nodes, at)(s) + c < tranSize && SlotIs(nodes, path, at, placed, q, a)
    ensures 0 < a < |path| && path[a] == s + [c] && nodes[a].sym == c && NumberOf(nodes, at)(s + [c]) == nodes[a].state
  {
    StateIndex(nodes, path, at, ps, placed, tranSize, s);
    assert Known(ps, s + [c]);
    a := at[s + [c]];
    KidIs(s, c, s, c);
    assert path[0] == [];
    ItemIsSlot(nodes, path, at, ps, placed, tranSize, a);
    KidIs(s, c, path[Up(path, at, a)], nodes[a].sym);
    assert Up(path, at, a) == at[s];
    q := nodes[at[s]].state + c;
  }

  /** Where there is no such child, another node's entry, or none, does not look like one. */
  lemma ChildMissing(tab: Table, nodes: seq<Node>, path: seq<Str>, at: map<Str, nat>, ps: seq<Str>, placed: set<nat>,
      nsyms: nat, s: Str, c: nat)
    requires Loaded(tab, nodes, path, at, ps, placed, nsyms)
    requires IsState(ps, s) && 0 < c < nsyms && !IsNode(ps, s + [c])
    ensures ChildEncoded(tab, Built(ps), NumberOf(nodes, at), s, c)
  {
    StateIndex(nodes, path, at, ps, placed, tab.tranSize, s);
    var q := nodes[at[s]].state + c;
    NotSym(tab, nodes, path, at, ps, placed, nsyms, s, c, q);
  }

  lemma NotSym(tab: Table, nodes: seq<Node>, path: seq<Str>, at: map<Str, nat>, ps: seq<Str>, placed: set<nat>,
      nsyms: nat, s: Str, c: nat, q: nat)
    requires Loaded(tab, nodes, path, at, ps, placed, nsyms) && IsState(ps, s) && 0 < c < nsyms && !IsNode(ps, s + [c])
    requires s in at && q == nodes[at[s]].state + c < |tab.tranv|
    ensures TranAt(tab, q).sym != c
  {
    if a: nat :| SlotIs(nodes, path, at, placed, q, a) {
      SlotWord(tab, nodes, path, at, ps, placed, nsyms, q, a);
      SlotNotOurs(nodes, path, at, ps, placed, tab.tranSize, s, c, a);
    } else if j: nat :| BaseIs(nodes, placed, q, j) && nodes[j].back != NULL {
      BackWord(tab, nodes, path, at, ps, placed, nsyms, q, j);
    } else {
      assert Free(nodes, path, at, placed, q);
      FreeWord(tab, nodes, path, at, ps, placed, nsyms, q);
    }
  }

  lemma SlotNotOurs(nodes: seq<Node>, path: seq<Str>, at: map<Str, nat>, ps: seq<Str>, placed: set<nat>, tranSize: nat,
      s: Str, c: nat, a: nat)
    requires Finished(nodes, path, at, ps, placed, tranSize) && IsState(ps, s) && !IsNode(ps, s + [c]) && s in at
    requires SlotIs(nodes, path, at, placed, nodes[at[s]].state + c, a) && 0 < a < |path|
    ensures nodes[a].sym != c
  {
    StateIndex(nodes, path, at, ps, placed, tranSize, s);
    ItemIsSlot(nodes, path, at, ps, placed, tranSize, a);
    RootPlaced(nodes, path, at, ps, placed, tranSize, path[a]);
    assert Known(ps, path[a]);
    SameBase(nodes, path, at, placed, at[s], Up(path, at, a));
  }

  lemma SameBase(nodes: seq<Node>, path: seq<Str>, at: map<Str, nat>, placed: set<nat>, i: nat, j: nat)
    requires OverlapFree(nodes, path, at, placed) && i < |nodes| && j < |nodes| && i in placed && j in placed
    ensures nodes[i].state == nodes[j].state ==> i == j
  {
    assert BaseIs(nodes, placed, nodes[i].state, i) && BaseIs(nodes, placed, nodes[j].state, j);
  }

  /** The back entry of a state. */
  lemma BackThere(tab: Table, nodes: seq<Node>, path: seq<Str>, at: map<Str, nat>, ps: seq<Str>, placed: set<nat>,
      nsyms: nat, s: Str)
    requires Loaded(tab, nodes, path, at, ps, placed, nsyms) && IsState(ps, s)
    ensures BackEncoded(tab, Built(ps), NumberOf(nodes, at), s)
  {
    StateIndex(nodes, path, at, ps, placed, tab.tranSize, s);
    if s == [] {
      RootWord(tab.symBits);
    } else {
      BackAt(tab, nodes, path, at, ps, placed, nsyms, s, at[s], nodes[at[s]].state);
      LinkNumber(nodes, path, at, ps, placed, tab.tranSize, at[s]);
      SameNumber(nodes, path, at, ps, placed, tab.tranSize, s);
    }
  }

  /** A leaf has the root's number, so the link read is the table's. */
  lemma SameNumber(nodes: seq<Node>, path: seq<Str>, at: map<Str, nat>, ps: seq<Str>, placed: set<nat>, tranSize: nat,
      s: Str)
    requires Finished(nodes, path, at, ps, placed, tranSize) && IsState(ps, s) && s != []
    ensures NumberOf(nodes, at)(LinkOf(ps, s)) == NumberOf(nodes, at)(TableLink(ps, s))
    ensures LinkOf(ps, s) == [] ==> TableLink(ps, s) == []
  {
    if !IsState(ps, LinkOf(ps, s)) {
      LinkIsNode(ps, s);
      LeafNumber(nodes, path, at, ps, placed, tranSize, LinkOf(ps, s));
      StateIndex(nodes, path, at, ps, placed, tranSize, []);
    }
  }

  /** The linked node's number is what the link's entry holds. */
  lemma LinkNumber(nodes: seq<Node>, path: seq<Str>, at: map<Str, nat>, ps: seq<Str>, placed: set<nat>, tranSize: nat,
      i: nat)
    requires Finished(nodes, path, at, ps, placed, tranSize) && 0 < i < |path| && nodes[i].child != 0
    ensures path[i] != []
    ensures nodes[i].back == NULL ==> LinkOf(ps, path[i]) == [] && NumberOf(nodes, at)([]) == 0
    ensures nodes[i].back != NULL ==> NumberOf(nodes, at)(LinkOf(ps, path[i])) == BackEntry(nodes, i).next
  {
    assert FinalLink(nodes, path, at, ps, i);
    assert path[0] == [] && at[path[0]] == 0;
  }

  lemma BackAt(tab: Table, nodes: seq<Node>, path: seq<Str>, at: map<Str, nat>, ps: seq<Str>, placed: set<nat>,
      nsyms: nat, s: Str, i: nat, q: nat)
    requires Loaded(tab, nodes, path, at, ps, placed, nsyms) && s != []
    requires i < |path| && path[i] == s && BaseIs(nodes, placed, q, i) && q < |tab.tranv|
    ensures i > 0 && nodes[i].child != 0
    ensures nodes[i].back != NULL ==> TranAt(tab, q) == BackEntry(nodes, i)
    ensures nodes[i].back == NULL ==> TranAt(tab, q).sym != 0 || TranAt(tab, q).next == 0
  {
    assert path[0] == [];
    if nodes[i].back != NULL {
      BackWord(tab, nodes, path, at, ps, placed, nsyms, q, i);
    } else if a: nat :| SlotIs(nodes, path, at, placed, q, a) {
      SlotWord(tab, nodes, path, at, ps, placed, nsyms, q, a);
      ItemIsSlot(nodes, path, at, ps, placed, tab.tranSize, a);
    } else {
      assert Free(nodes, path, at, placed, q);
      RootPlaced(nodes, path, at, ps, placed, tab.tranSize, s);
      SameBase(nodes, path, at, placed, 0, i);
      FreeWord(tab, nodes, path, at, ps, placed, nsyms, q);
    }
  }

  lemma RootWord(bits: nat)
    requires bits > 0
    ensures Unpack(1, bits).sym == 1
  {
    EmptyWord(bits - 1);
  }

  /** The string number of a pattern that is a state is found by probing from its slot's hash. */
  lemma HashThere(tab: Table, nodes: seq<Node>, path: seq<Str>, at: map<Str, nat>, ps: seq<Str>, placed: set<nat>,
      nsyms: nat, s: Str, c: nat)
    requires Loaded(tab, nodes, path, at, ps, placed, nsyms) && IsState(ps, s) && 0 < c < nsyms
    requires Marked(nodes, |path|) != {} ==>
             tab.hashMod > 0 && Stores(tab.hashv, tab.hashMod, Items(nodes, path, at, Marked(nodes, |path|)))
    ensures HashEncoded(tab, ps, NumberOf(nodes, at), s, c)
  {
    if s + [c] in ps && IsState(ps, s + [c]) {
      PatternIsNode(ps, s + [c]);
      var q, a := KidSlotOf(nodes, path, at, ps, placed, tab.tranSize, s, c);
      var e := MarkedItem(nodes, path, at, ps, placed, tab.tranSize, a, q);
      ItemsDiffer(nodes, path, at, ps, placed, tab.tranSize);
      assert Findable(tab.hashv, tab.hashMod, e);
      var k: nat :| Probed(tab.hashv, tab.hashMod, e, k);
      var i := FirstFound(tab.hashv, tab.hashMod, Items(nodes, path, at, Marked(nodes, |path|)), e, k);
      assert HashedAt(tab, q, StrNo(ps, s + [c]), i);
    }
  }

  lemma MarkedItem(nodes: seq<Node>, path: seq<Str>, at: map<Str, nat>, ps: seq<Str>, placed: set<nat>, tranSize: nat,
      a: nat, q: nat) returns (e: Strash)
    requires Finished(nodes, path, at, ps, placed, tranSize) && 0 < a < |path| && path[a] in ps && IsState(ps, path[a])
    requires SlotIs(nodes, path, at, placed, q, a)
    ensures a in Marked(nodes, |path|) && e == Strash(q, StrNo(ps, path[a]))
            && e in Items(nodes, path, at, Marked(nodes, |path|)) && q > 0
  {
    ItemIsSlot(nodes, path, at, ps, placed, tranSize, a);
    ChildIffState(nodes, path, at, ps, a);
    e := ItemOf(nodes, path, at, a);
    assert a in Marked(nodes, |path|);
  }

  /** The table holds what was built: every transition, link, flag and string number. */
  lemma AllEncoded(tab: Table, nodes: seq<Node>, path: seq<Str>, at: map<Str, nat>, ps: seq<Str>, placed: set<nat>,
      nsyms: nat)
    requires Loaded(tab, nodes, path, at, ps, placed, nsyms) && nsyms > 0
    requires Marked(nodes, |path|) != {} ==>
               tab.hashMod > 0 && Stores(tab.hashv, tab.hashMod, Items(nodes, path, at, Marked(nodes, |path|)))
    ensures Encodes(tab, Built(ps), nsyms, NumberOf(nodes, at))
  {
    var a, base := Built(ps), NumberOf(nodes, at);
    NumbersDiffer(nodes, path, at, ps, placed, tab.tranSize);
    forall s: Str {:trigger BackEncoded(tab, a, base, s)} | IsState(ps, s) ensures BackEncoded(tab, a, base, s) {
      BackThere(tab, nodes, path, at, ps, placed, nsyms, s);
    }
    forall s: Str, c: nat {:trigger ChildEncoded(tab, a, base, s, c)} | IsState(ps, s) && 0 < c < nsyms
      ensures ChildEncoded(tab, a, base, s, c)
    {
      if IsNode(ps, s + [c]) {
        ChildThere(tab, nodes, path, at, ps, placed, nsyms, s, c);
      } else {
        ChildMissing(tab, nodes, path, at, ps, placed, nsyms, s, c);
      }
    }
    forall s: Str, c: nat {:trigger HashEncoded(tab, ps, base, s, c)} | IsState(ps, s) && 0 < c < nsyms
      ensures HashEncoded(tab, ps, base, s, c)
    {
      HashThere(tab, nodes, path, at, ps, placed, nsyms, s, c);
    }
  }

  lemma LeafNumber(nodes: seq<Node>, path: seq<Str>, at: map<Str, nat>, ps: seq<Str>, placed: set<nat>, tranSize: nat,
      s: Str)
    requires Finished(nodes, path, at, ps, placed, tranSize) && Leaf(ps, s)
    ensures NumberOf(nodes, at)(s) == 0
  {
    assert Known(ps, s);
    ChildIffState(nodes, path, at, ps, at[s]);
  }

  // ---- acism_create -----------------------------------------------------------------------------------

  ghost predicate SymbolsBelow(ps: seq<Str>, nsyms: nat) {
    forall i, j | 0 <= i < |ps| && 0 <= j < |ps[i]| :: ps[i][j] < nsyms
  }

  lemma NodeSymbols(nodes: seq<Node>, path: seq<Str>, at: map<Str, nat>, ps: seq<Str>, nsyms: nat)
    requires Trie(nodes, path, at, ps) && nodes[0].sym == 0 && SymbolsBelow(ps, nsyms) && nsyms > 0
    ensures forall a | 0 <= a < |path| :: nodes[a].sym < nsyms
  {
    forall a | 0 < a < |path| ensures nodes[a].sym < nsyms {
      assert NextLink(nodes, path, at, a);
      assert Known(ps, path[a]);
      var i :| 0 <= i < |ps| && path[a] <= ps[i];
      assert nodes[a].sym == ps[i][|path[a]| - 1];
    }
  }

  lemma {:induction false} BitWidthGrows(a: nat, b: nat)
    requires a <= b
    ensures BitWidth(a) <= BitWidth(b)
  {
    if a > 0 {
      BitWidthGrows(a / 2, b / 2);
    }
  }

  /** What is at most a number of 30 bits is one of 32 bits. */
  lemma SmallFits(a: nat, b: nat)
    requires a <= b
    ensures BitWidth(a) <= BitWidth(b)
    ensures BitWidth(b) <= 30 ==> a < 0x1_0000_0000
  {
    BitWidthGrows(a, b);
    BitWidthBounds(b);
    if BitWidth(b) <= 30 {
      Pow2Grows(BitWidth(b), 30);
      PowThirty();
    }
  }

  /** The width check of acism_create is what the fields need. */
  lemma CheckSuffices(ps: seq<Str>, tranSize: nat, nsyms: nat)
    requires tranSize > 0 && nsyms > 0 && BitWidth(tranSize + |ps| - 1) + BitWidth(nsyms) <= 30
    ensures FieldsFit(ps, BitWidth(nsyms), tranSize, nsyms)
  {
    BitWidthBounds(nsyms);
    BitWidthBounds(tranSize + |ps| - 1);
    Pow2Grows(BitWidth(tranSize + |ps| - 1), 30 - BitWidth(nsyms));
  }

  /** Links, numbers and leaves after all passes over the tree. */
  lemma TreeFinished(linked: seq<Node>, nodes: seq<Node>, path: seq<Str>, at: map<Str, nat>, ps: seq<Str>,
      placed: set<nat>, tranSize: nat)
    requires Trie(linked, path, at, ps) && forall i | 0 <= i < |path| :: linked[i].state == 0
    requires forall i {:trigger LinkSet(linked, path, at, ps, i)} | 0 <= i < |path| :: LinkSet(linked, path, at, ps, i)
    requires Trie(nodes, path, at, ps) && Numbering(linked, nodes, placed) && Packed(nodes, path, at, placed, tranSize)
    ensures Finished(nodes, path, at, ps, placed, tranSize)
  {
    forall a | 0 < a < |path| ensures nodes[a].child == 0 ==> nodes[a].matched > 0 {
      LeavesMatched(nodes, path, at, ps, a);
    }
    forall i | 0 <= i < |path| && nodes[i].back != NULL ensures 0 <= nodes[i].back < |path| {
      assert LinkSet(linked, path, at, ps, i);
    }
    forall i {:trigger FinalLink(nodes, path, at, ps, i)} | 0 < i < |path| ensures FinalLink(nodes, path, at, ps, i) {
      LinkFinal(linked, nodes, path, at, ps, placed, tranSize, i);
    }
    assert path[0] == [];
    assert LinkSet(linked, path, at, ps, 0);
  }

  lemma LeavesMatched(nodes: seq<Node>, path: seq<Str>, at: map<Str, nat>, ps: seq<Str>, a: nat)
    requires Trie(nodes, path, at, ps) && 0 < a < |path|
    ensures nodes[a].child == 0 ==> nodes[a].matched > 0
  {
    assert path[0] == [] && path[a] != [];
    assert Known(ps, path[a]);
    ChildIffState(nodes, path, at, ps, a);
    if nodes[a].child == 0 {
      LeafIsPattern(ps, path[a]);
    }
  }

  lemma LinkFinal(linked: seq<Node>, nodes: seq<Node>, path: seq<Str>, at: map<Str, nat>, ps: seq<Str>,
      placed: set<nat>, tranSize: nat, i: nat)
    requires Trie(linked, path, at, ps) && |path| <= |nodes| && 0 < i < |path| && LinkSet(linked, path, at, ps, i)
    requires Numbering(linked, nodes, placed) && Packed(nodes, path, at, placed, tranSize)
    ensures FinalLink(nodes, path, at, ps, i)
  {
    assert path[0] == [] && at[path[0]] == 0 && path[i] != [];
    assert at[path[i]] == i;
    var b := at[LinkOf(ps, path[i])];
    assert path[b] == LinkOf(ps, path[i]);
    assert b == 0 <==> LinkOf(ps, path[i]) == [];
  }

  /** From a zeroed array: every word is right, and where nothing belongs it is still 0. */
  lemma FilledUp(zeros: seq<nat>, ws: seq<nat>, nodes: seq<Node>, path: seq<Str>, at: map<Str, nat>, ps: seq<Str>,
      placed: set<nat>, bits: nat, tranSize: nat)
    requires Finished(nodes, path, at, ps, placed, tranSize) && |ws| > 0 && forall q | 0 <= q < |zeros| :: zeros[q] == 0
    requires OnlyRight(zeros, ws, nodes, path, at, placed, bits, tranSize)
    requires AllBelowDone(ws, nodes, path, at, placed, bits, tranSize, [])
    ensures Filled(ws[0 := 1], nodes, path, at, placed, bits, tranSize)
  {
    assert path[0] == [];
    forall q: nat, a: nat | q < |ws| && 0 < a && SlotIs(nodes, path, at, placed, q, a)
      ensures q > 0 && ws[q] == Pack(ChildEntry(nodes, a, tranSize), bits)
    {
      ItemIsSlot(nodes, path, at, ps, placed, tranSize, a);
      assert NodeDone(ws, nodes, path, at, placed, bits, tranSize, a);
    }
    forall q: nat, i: nat | q < |ws| && i < |path| && BaseIs(nodes, placed, q, i) && nodes[i].back != NULL
      ensures q > 0 && ws[q] == Pack(BackEntry(nodes, i), bits)
    {
      assert path[i] != [] by {
        assert path[i] == [] ==> i == 0;
      }
      RootPlaced(nodes, path, at, ps, placed, tranSize, path[i]);
      assert NodeDone(ws, nodes, path, at, placed, bits, tranSize, i);
    }
  }

  /** The tree with its links. */
  method MakeTree(ps: seq<Str>) returns (tr: Tree)
    requires Proper(ps)
    ensures fresh(tr) && Trie(tr.nodes, tr.path, tr.at, ps) && tr.nextp == |tr.path|
    ensures forall i {:trigger LinkSet(tr.nodes, tr.path, tr.at, ps, i)} | 0 <= i < |tr.path| ::
            LinkSet(tr.nodes, tr.path, tr.at, ps, i)
    ensures tr.nodes[0].sym == 0 && (forall i | 0 <= i < |tr.path| :: tr.nodes[i].state == 0)
            && |tr.path| <= TotalLength(ps) + 1
  {
    tr := new Tree(TotalLength(ps) + 1);
    tr.Create(ps);
    AddBacklinks(tr, ps);
  }

  /** Tree, links and state numbers. */
  method BuildTree(ps: seq<Str>, nsyms: nat) returns (tr: Tree, tranSize: nat, nhash: nat, ghost placed: set<nat>)
    requires Proper(ps) && SymbolsBelow(ps, nsyms) && nsyms > 0
    ensures fresh(tr) && Finished(tr.nodes, tr.path, tr.at, ps, placed, tranSize) && tr.nextp == |tr.path|
    ensures nhash == |Marked(tr.nodes, |tr.path|)|
    ensures (forall a | 0 <= a < |tr.path| :: tr.nodes[a].sym < nsyms) && tranSize <= nsyms * (TotalLength(ps) + 1) + 1
  {
    tr := MakeTree(ps);
    ghost var linked := tr.nodes;
    nhash := CountMarked(tr.nodes, tr.nextp);
    NodeSymbols(tr.nodes, tr.path, tr.at, ps, nsyms);
    tranSize, placed := Interleave(tr, nsyms, ps);
    TreeFinished(linked, tr.nodes, tr.path, tr.at, ps, placed, tranSize);
    RoomGrows(nsyms, |tr.path|, TotalLength(ps) + 1);
    RoomIs(nsyms, TotalLength(ps) + 1);
    assert Marked(linked, |tr.path|) == Marked(tr.nodes, |tr.path|);
  }

  /** The transition array. */
  method BuildTranv(nodes: seq<Node>, bits: nat, tranSize: nat, nsyms: nat,
    ghost path: seq<Str>, ghost at: map<Str, nat>, ghost ps: seq<Str>, ghost placed: set<nat>)
    returns (ws: seq<nat>)
    requires Finished(nodes, path, at, ps, placed, tranSize)
    ensures Filled(ws, nodes, path, at, placed, bits, tranSize) && |ws| == tranSize + nsyms
  {
    var tranv := new nat[tranSize + nsyms](_ => 0);
    ghost var zeros := tranv[..];
    FillTranv(tranv, nodes, 0, bits, tranSize, path, at, ps, placed);
    FilledUp(zeros, tranv[..], nodes, path, at, ps, placed, bits, tranSize);
    ws := tranv[..][0 := 1];
  }

  /**
   * acism_create: a table from which every transition, link and string number can be read back,
   * or none when the numbers do not fit their bits.
   */
  method Create(ps: seq<Str>, nsyms: nat) returns (r: Option<Table>, ghost base: Str -> nat)
    requires Proper(ps) && SymbolsBelow(ps, nsyms) && 0 < nsyms <= 257
    ensures r.Some? ==> Encodes(r.value, Built(ps), nsyms, base)
    ensures BitWidth(nsyms * (TotalLength(ps) + 1) + |ps|) + BitWidth(nsyms) <= 30 ==> r.Some?
  {
    base := _ => 0;
    var tr, tranSize, nhash;
    ghost var placed;
    tr, tranSize, nhash, placed := BuildTree(ps, nsyms);
    var symBits := Bitwid(nsyms);
    var fits := CheckWidths(ps, tranSize, nsyms, symBits);
    if !fits {
      return None, base;
    }
    var tab := BuildTable(tr, symBits, tranSize, nhash, nsyms, ps, placed);
    base := NumberOf(tr.nodes, tr.at);
    r := Some(tab);
  }

  /** The check that all numbers fit their bits. */
  method CheckWidths(ps: seq<Str>, tranSize: nat, nsyms: nat, symBits: nat) returns (fits: bool)
    requires 0 < tranSize <= nsyms * (TotalLength(ps) + 1) + 1 && nsyms > 0 && symBits == BitWidth(nsyms)
    ensures fits ==> FieldsFit(ps, symBits, tranSize, nsyms)
    ensures BitWidth(nsyms * (TotalLength(ps) + 1) + |ps|) + BitWidth(nsyms) <= 30 ==> fits
  {
    SmallFits(tranSize + |ps| - 1, nsyms * (TotalLength(ps) + 1) + |ps|);
    fits := false;
    if tranSize + |ps| - 1 < 0x1_0000_0000 {
      var width := Bitwid(tranSize + |ps| - 1);
      fits := width + symBits <= 30;
    }
    if fits {
      CheckSuffices(ps, tranSize, nsyms);
    }
  }

  /** Transitions and hash table from the finished tree. */
  method BuildTable(tr: Tree, symBits: nat, tranSize: nat, nhash: nat, nsyms: nat, ghost ps: seq<Str>,
      ghost placed: set<nat>) returns (tab: Table)
    requires Finished(tr.nodes, tr.path, tr.at, ps, placed, tranSize) && tr.nextp == |tr.path|
             && nhash == |Marked(tr.nodes, |tr.path|)|
    requires (forall a | 0 <= a < |tr.path| :: tr.nodes[a].sym < nsyms) && Proper(ps) && SymbolsBelow(ps, nsyms)
    requires symBits == BitWidth(nsyms) && 0 < nsyms <= 257 && FieldsFit(ps, symBits, tranSize, nsyms)
    ensures Encodes(tab, Built(ps), nsyms, NumberOf(tr.nodes, tr.at))
  {
    var ws := BuildTranv(tr.nodes, symBits, tranSize, nsyms, tr.path, tr.at, ps, placed);
    var hashMod, hashv := BuildHashv(tr.nodes, tr.nextp, nhash, tr.path, tr.at, ps, placed, tranSize);
    tab := Table(ws, tranSize, symBits, hashv, hashMod);
    AllEncoded(tab, tr.nodes, tr.path, tr.at, ps, placed, nsyms);
  }

  /** The hash table, when there is anything to put in. */
  method BuildHashv(nodes: seq<Node>, nnodes: nat, nhash: nat,
    ghost path: seq<Str>, ghost at: map<Str, nat>, ghost ps: seq<Str>, ghost placed: set<nat>, ghost tranSize: nat)
    returns (hashMod: nat, hashv: seq<Strash>)
    requires Finished(nodes, path, at, ps, placed, tranSize) && nnodes == |path| && nhash == |Marked(nodes, |path|)|
    ensures Marked(nodes, |path|) != {} ==>
            hashMod > 0 && Stores(hashv, hashMod, Items(nodes, path, at, Marked(nodes, |path|)))
  {
    hashMod, hashv := 0, [];
    if nhash > 0 {
      hashMod := nhash * 5 / 4 + 1;
      hashv := FillHashv(nodes, nnodes, nhash, hashMod, path, at, ps, placed, tranSize);
    }
  }
}
