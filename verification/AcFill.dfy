// fill_tranv of contrib/aho-corasick/acism_create.c, and what the filled array decodes to.
module AcFill {
  import opened AcSpec
  import opened AcTrie
  import opened AcLinks
  import opened AcTable
  import opened AcPack
  import opened AcInterleave
  import opened AcFillHash

  /** The entry of a child: to its state, or for a leaf to its string number. */
  function ChildEntry(nodes: seq<Node>, a: nat, tranSize: nat): Tran
    requires a < |nodes| && (nodes[a].child == 0 ==> nodes[a].matched > 0)
  {
    Tran(nodes[a].sym, if nodes[a].child != 0 then nodes[a].state
        else nodes[a].matched - 1 + tranSize, nodes[a].matched != 0, nodes[a].isSuffix)
  }

  function BackEntry(nodes: seq<Node>, i: nat): Tran
    requires i < |nodes| && 0 <= nodes[i].back < |nodes|
  {
    Tran(0, nodes[nodes[i].back].state, false, false)
  }

  /** Leaves are patterns, and links lead to nodes. */
  ghost predicate Sound(nodes: seq<Node>, n: nat) {
    && n <= |nodes|
    && (forall a | 0 < a < n :: nodes[a].child == 0 ==> nodes[a].matched > 0)
    && (forall i | 0 <= i < n && nodes[i].back != NULL :: 0 <= nodes[i].back < n)
  }

  /** w is the word that belongs at q: that of the one node whose slot or back link is there. */
  ghost predicate RightAt(nodes: seq<Node>, path: seq<Str>, at: map<Str, nat>, placed: set<nat>, bits: nat,
      tranSize: nat, q: nat, w: nat)
    requires Sound(nodes, |path|)
  {
    && (forall a: nat | 0 < a && SlotIs(nodes, path, at, placed, q, a) ::
        w == Pack(ChildEntry(nodes, a, tranSize), bits))
    && (forall i: nat | i < |path| && BaseIs(nodes, placed, q, i) && nodes[i].back != NULL ::
        w == Pack(BackEntry(nodes, i), bits))
  }

  ghost predicate Free(nodes: seq<Node>, path: seq<Str>, at: map<Str, nat>, placed: set<nat>, q: nat) {
    && (forall a: nat :: !SlotIs(nodes, path, at, placed, q, a))
    && (forall i: nat | BaseIs(nodes, placed, q, i) :: nodes[i].back == NULL)
  }

  ghost predicate SlotDone(ws: seq<nat>, nodes: seq<Node>, path: seq<Str>, at: map<Str, nat>, placed: set<nat>,
      bits: nat, tranSize: nat, a: nat)
    requires Sound(nodes, |path|)
  {
    forall q: nat | q < |ws| && SlotIs(nodes, path, at, placed, q, a) ::
        RightAt(nodes, path, at, placed, bits, tranSize, q, ws[q])
  }

  ghost predicate BackDone(ws: seq<nat>, nodes: seq<Node>, path: seq<Str>, at: map<Str, nat>, placed: set<nat>,
      bits: nat, tranSize: nat, i: nat)
    requires Sound(nodes, |path|)
  {
    forall q: nat | q < |ws| && BaseIs(nodes, placed, q, i) && nodes[i].back != NULL ::
        RightAt(nodes, path, at, placed, bits, tranSize, q, ws[q])
  }

  /** The words of node a, as a child and for its back link, are in place. */
  ghost predicate NodeDone(ws: seq<nat>, nodes: seq<Node>, path: seq<Str>, at: map<Str, nat>, placed: set<nat>,
      bits: nat, tranSize: nat, a: nat)
    requires Sound(nodes, |path|)
  {
    SlotDone(ws, nodes, path, at, placed, bits, tranSize, a) && BackDone(ws, nodes, path, at, placed, bits, tranSize, a)
  }

  /** Only right words were written, and none where nothing belongs. */
  ghost predicate OnlyRight(ws: seq<nat>, ws': seq<nat>, nodes: seq<Node>, path: seq<Str>, at: map<Str, nat>,
      placed: set<nat>, bits: nat, tranSize: nat)
    requires Sound(nodes, |path|)
  {
    && |ws| == |ws'|
    && forall q: nat | q < |ws| ::
         ws'[q] == ws[q]
             || (RightAt(nodes, path, at, placed, bits, tranSize, q, ws'[q]) && !Free(nodes, path, at, placed, q))
  }

  lemma OnlyRightTwice(ws: seq<nat>, ws': seq<nat>, ws'': seq<nat>, nodes: seq<Node>, path: seq<Str>, at: map<Str, nat>,
      placed: set<nat>, bits: nat, tranSize: nat)
    requires Sound(nodes, |path|) && OnlyRight(ws, ws', nodes, path, at, placed, bits, tranSize)
             && OnlyRight(ws', ws'', nodes, path, at, placed, bits, tranSize)
    ensures OnlyRight(ws, ws'', nodes, path, at, placed, bits, tranSize)
  {
  }

  lemma DoneStays(ws: seq<nat>, ws': seq<nat>, nodes: seq<Node>, path: seq<Str>, at: map<Str, nat>, placed: set<nat>,
      bits: nat, tranSize: nat, a: nat)
    requires Sound(nodes, |path|) && OnlyRight(ws, ws', nodes, path, at, placed, bits, tranSize)
             && NodeDone(ws, nodes, path, at, placed, bits, tranSize, a)
    ensures NodeDone(ws', nodes, path, at, placed, bits, tranSize, a)
  {
  }

  /** Everything below p is done, as far as it goes on with a symbol below `low`. */
  ghost predicate BelowDone(ws: seq<nat>, nodes: seq<Node>, path: seq<Str>, at: map<Str, nat>, placed: set<nat>,
      bits: nat, tranSize: nat, p: Str, low: nat)
    requires Sound(nodes, |path|)
  {
    forall a: nat {:trigger NodeDone(ws, nodes, path, at, placed, bits, tranSize, a)} | a < |path| && p < path[a]
        && path[a][|p|] < low ::
      NodeDone(ws, nodes, path, at, placed, bits, tranSize, a)
  }

  ghost predicate AllBelowDone(ws: seq<nat>, nodes: seq<Node>, path: seq<Str>, at: map<Str, nat>, placed: set<nat>,
      bits: nat, tranSize: nat, p: Str)
    requires Sound(nodes, |path|)
  {
    forall a: nat {:trigger NodeDone(ws, nodes, path, at, placed, bits, tranSize, a)} | a < |path| && p < path[a] ::
      NodeDone(ws, nodes, path, at, placed, bits, tranSize, a)
  }

  lemma BelowStays(ws: seq<nat>, ws': seq<nat>, nodes: seq<Node>, path: seq<Str>, at: map<Str, nat>, placed: set<nat>,
      bits: nat, tranSize: nat, p: Str, low: nat)
    requires Sound(nodes, |path|) && OnlyRight(ws, ws', nodes, path, at, placed, bits, tranSize)
             && BelowDone(ws, nodes, path, at, placed, bits, tranSize, p, low)
    ensures BelowDone(ws', nodes, path, at, placed, bits, tranSize, p, low)
  {
    forall a: nat {:trigger NodeDone(ws', nodes, path, at, placed, bits, tranSize, a)} | a < |path| && p < path[a]
        && path[a][|p|] < low
      ensures NodeDone(ws', nodes, path, at, placed, bits, tranSize, a)
    {
      DoneStays(ws, ws', nodes, path, at, placed, bits, tranSize, a);
    }
  }

  /** When the next kid and all below it is done, so is everything up to its symbol. */
  lemma BelowGrows(ws: seq<nat>, nodes: seq<Node>, path: seq<Str>, at: map<Str, nat>, ps: seq<Str>, placed: set<nat>,
      bits: nat, tranSize: nat, p: Str, low: nat, k: nat)
    requires Sound(nodes, |path|) && Trie(nodes, path, at, ps) && k != 0 && FirstFrom(nodes, path, at, p, low, k)
    requires BelowDone(ws, nodes, path, at, placed, bits, tranSize, p, low)
    requires NodeDone(ws, nodes, path, at, placed, bits, tranSize, k)
             && AllBelowDone(ws, nodes, path, at, placed, bits, tranSize, path[k])
    ensures BelowDone(ws, nodes, path, at, placed, bits, tranSize, p, nodes[k].sym + 1)
  {
    forall a: nat {:trigger NodeDone(ws, nodes, path, at, placed, bits, tranSize, a)} | a < |path| && p < path[a]
        && path[a][|p|] < nodes[k].sym + 1
      ensures NodeDone(ws, nodes, path, at, placed, bits, tranSize, a)
    {
      var c := path[a][|p|];
      if low <= c {
        BranchKnown(nodes, path, at, ps, p, a);
        assert HasKid(at, p, c);
        assert path[k] == p + [c] <= path[a];
        if path[k] == path[a] {
          assert at[path[k]] == k && at[path[a]] == a;
        } else {
          assert path[k] < path[a];
        }
      }
    }
  }

  /** The branch that leads to a node below p is a child of p. */
  lemma BranchKnown(nodes: seq<Node>, path: seq<Str>, at: map<Str, nat>, ps: seq<Str>, p: Str, a: nat)
    requires Trie(nodes, path, at, ps) && a < |path| && p < path[a]
    ensures p + [path[a][|p|]] in at && p + [path[a][|p|]] <= path[a]
  {
    var s := p + [path[a][|p|]];
    assert s <= path[a];
    var j :| 0 <= j < |ps| && path[a] <= ps[j];
    assert s <= ps[j];
    assert Known(ps, s);
  }

  lemma AllBelow(ws: seq<nat>, nodes: seq<Node>, path: seq<Str>, at: map<Str, nat>, ps: seq<Str>, placed: set<nat>,
      bits: nat, tranSize: nat, p: Str, low: nat)
    requires Sound(nodes, |path|) && Trie(nodes, path, at, ps) && FirstFrom(nodes, path, at, p, low, 0)
    requires BelowDone(ws, nodes, path, at, placed, bits, tranSize, p, low)
    ensures AllBelowDone(ws, nodes, path, at, placed, bits, tranSize, p)
  {
    forall a: nat {:trigger NodeDone(ws, nodes, path, at, placed, bits, tranSize, a)} | a < |path| && p < path[a]
      ensures NodeDone(ws, nodes, path, at, placed, bits, tranSize, a)
    {
      BranchKnown(nodes, path, at, ps, p, a);
      assert HasKid(at, p, path[a][|p|]);
    }
  }

  /** set_tran for a child. */
  method SetChild(tranv: array<nat>, nodes: seq<Node>, i: nat, a: nat, bits: nat, tranSize: nat,
    ghost path: seq<Str>, ghost at: map<Str, nat>, ghost ps: seq<Str>, ghost placed: set<nat>)
    requires Trie(nodes, path, at, ps) && Packed(nodes, path, at, placed, tranSize) && Sound(nodes, |path|)
             && tranv.Length >= tranSize
    requires 0 < a < |path| && i < |path| && path[a] == path[i] + [nodes[a].sym]
    modifies tranv
    ensures OnlyRight(old(tranv[..]), tranv[..], nodes, path, at, placed, bits, tranSize)
    ensures nodes[i].state + nodes[a].sym < tranSize
    ensures RightAt(nodes, path, at, placed, bits, tranSize, nodes[i].state + nodes[a].sym,
            tranv[nodes[i].state + nodes[a].sym])
  {
    var q := nodes[i].state + nodes[a].sym;
    ItemIsSlot(nodes, path, at, ps, placed, tranSize, a);
    KidIs(path[i], nodes[a].sym, path[Up(path, at, a)], nodes[a].sym);
    assert Up(path, at, a) == i;
    tranv[q] := Pack(ChildEntry(nodes, a, tranSize), bits);
  }

  /** set_tran for a back link. */
  method SetBack(tranv: array<nat>, nodes: seq<Node>, i: nat, bits: nat, tranSize: nat,
    ghost path: seq<Str>, ghost at: map<Str, nat>, ghost placed: set<nat>)
    requires Packed(nodes, path, at, placed, tranSize) && Sound(nodes, |path|) && tranv.Length >= tranSize
    requires i < |path| && nodes[i].child != 0 && nodes[i].back != NULL
    modifies tranv
    ensures OnlyRight(old(tranv[..]), tranv[..], nodes, path, at, placed, bits, tranSize)
    ensures nodes[i].state < tranSize
            && RightAt(nodes, path, at, placed, bits, tranSize, nodes[i].state, tranv[nodes[i].state])
  {
    assert BaseIs(nodes, placed, nodes[i].state, i);
    tranv[nodes[i].state] := Pack(BackEntry(nodes, i), bits);
  }

  /** fill_tranv: the entries of tp and of everything below it. */
  method FillTranv(tranv: array<nat>, nodes: seq<Node>, tp: nat, bits: nat, tranSize: nat,
    ghost path: seq<Str>, ghost at: map<Str, nat>, ghost ps: seq<Str>, ghost placed: set<nat>)
    requires Trie(nodes, path, at, ps) && Packed(nodes, path, at, placed, tranSize) && Sound(nodes, |path|)
             && tranv.Length >= tranSize
    requires tp < |path|
    modifies tranv
    ensures OnlyRight(old(tranv[..]), tranv[..], nodes, path, at, placed, bits, tranSize)
    ensures BackDone(tranv[..], nodes, path, at, placed, bits, tranSize, tp)
    ensures AllBelowDone(tranv[..], nodes, path, at, placed, bits, tranSize, path[tp])
    decreases Deepest(path) - |path[tp]|, 1
  {
    ghost var low: nat, bound := 0, HighestSym(nodes);
    ghost var ws := tranv[..];
    if nodes[tp].child != 0 && nodes[tp].back != NULL {
      SetBack(tranv, nodes, tp, bits, tranSize, path, at, placed);
    }
    assert BackDone(tranv[..], nodes, path, at, placed, bits, tranSize, tp);
    FirstOf(nodes, path, at, tp);
    var k: nat := nodes[tp].child;
    while k != 0
      invariant OnlyRight(ws, tranv[..], nodes, path, at, placed, bits, tranSize)
      invariant BackDone(tranv[..], nodes, path, at, placed, bits, tranSize, tp)
      invariant FirstFrom(nodes, path, at, path[tp], low, k) && low <= bound + 1
      invariant BelowDone(tranv[..], nodes, path, at, placed, bits, tranSize, path[tp], low)
      decreases bound + 1 - low
    {
      FillKid(tranv, nodes, tp, k, bits, tranSize, path, at, ps, placed, low, ws);
      NextOf(nodes, path, at, k, path[tp]);
      low, k := nodes[k].sym + 1, nodes[k].next;
    }
    AllBelow(tranv[..], nodes, path, at, ps, placed, bits, tranSize, path[tp], low);
  }

  /** One child of tp and everything below it. */
  method FillKid(tranv: array<nat>, nodes: seq<Node>, tp: nat, k: nat, bits: nat, tranSize: nat,
    ghost path: seq<Str>, ghost at: map<Str, nat>, ghost ps: seq<Str>, ghost placed: set<nat>, ghost low: nat,
        ghost ws: seq<nat>)
    requires Trie(nodes, path, at, ps) && Packed(nodes, path, at, placed, tranSize) && Sound(nodes, |path|)
             && tranv.Length >= tranSize
    requires tp < |path| && k != 0 && FirstFrom(nodes, path, at, path[tp], low, k)
    requires OnlyRight(ws, tranv[..], nodes, path, at, placed, bits, tranSize)
    requires BackDone(tranv[..], nodes, path, at, placed, bits, tranSize, tp)
    requires BelowDone(tranv[..], nodes, path, at, placed, bits, tranSize, path[tp], low)
    modifies tranv
    ensures OnlyRight(ws, tranv[..], nodes, path, at, placed, bits, tranSize)
    ensures BackDone(tranv[..], nodes, path, at, placed, bits, tranSize, tp)
    ensures BelowDone(tranv[..], nodes, path, at, placed, bits, tranSize, path[tp], nodes[k].sym + 1)
    decreases Deepest(path) - |path[tp]|, 0
  {
    ghost var before := tranv[..];
    SetChild(tranv, nodes, tp, k, bits, tranSize, path, at, ps, placed);
    ghost var mid := tranv[..];
    KidSlot(mid, nodes, path, at, ps, placed, bits, tranSize, tp, k);
    if nodes[k].child != 0 {
      FillTranv(tranv, nodes, k, bits, tranSize, path, at, ps, placed);
    } else {
      NothingUnder(mid, nodes, path, at, ps, placed, bits, tranSize, k);
    }
    OnlyRightTwice(before, mid, tranv[..], nodes, path, at, placed, bits, tranSize);
    OnlyRightTwice(ws, before, tranv[..], nodes, path, at, placed, bits, tranSize);
    BelowStays(before, tranv[..], nodes, path, at, placed, bits, tranSize, path[tp], low);
    BelowGrows(tranv[..], nodes, path, at, ps, placed, bits, tranSize, path[tp], low, k);
  }

  lemma KidSlot(ws: seq<nat>, nodes: seq<Node>, path: seq<Str>, at: map<Str, nat>, ps: seq<Str>, placed: set<nat>,
      bits: nat, tranSize: nat, i: nat, k: nat)
    requires Trie(nodes, path, at, ps) && Packed(nodes, path, at, placed, tranSize) && Sound(nodes, |path|)
    requires i < |path| && 0 < k < |path| && path[k] == path[i] + [nodes[k].sym] && nodes[i].state + nodes[k].sym < |ws|
    requires RightAt(nodes, path, at, placed, bits, tranSize, nodes[i].state + nodes[k].sym,
             ws[nodes[i].state + nodes[k].sym])
    ensures SlotDone(ws, nodes, path, at, placed, bits, tranSize, k)
  {
    KidIs(path[i], nodes[k].sym, path[i], nodes[k].sym);
    assert Up(path, at, k) == i;
  }

  lemma NothingUnder(ws: seq<nat>, nodes: seq<Node>, path: seq<Str>, at: map<Str, nat>, ps: seq<Str>, placed: set<nat>,
      bits: nat, tranSize: nat, k: nat)
    requires Trie(nodes, path, at, ps) && Packed(nodes, path, at, placed, tranSize) && Sound(nodes, |path|)
             && k < |path| && nodes[k].child == 0
    ensures BackDone(ws, nodes, path, at, placed, bits, tranSize, k)
    ensures AllBelowDone(ws, nodes, path, at, placed, bits, tranSize, path[k])
  {
    FirstOf(nodes, path, at, k);
    AllBelow(ws, nodes, path, at, ps, placed, bits, tranSize, path[k], 0);
  }
}
