// interleave of contrib/aho-corasick/acism_create.c: every state gets a base in one shared array,
// such that no two entries fall on the same slot.
module AcPack {
  import opened AcSpec
  import opened AcTrie
  import opened AcLinks

  /** An element of usev: taken as a base, taken as a slot. */
  datatype Use = Use(base: bool, used: bool)

  ghost predicate IsKid(path: seq<Str>, p: Str, a: nat) {
    a < |path| && path[a] != [] && Parent(path[a]) == p
  }

  /** The parent of a node. */
  ghost function Up(path: seq<Str>, at: map<Str, nat>, a: nat): nat {
    if a < |path| && path[a] != [] && Parent(path[a]) in at then at[Parent(path[a])] else 0
  }

  /** q is the slot of node a, whose parent has its base: the parent's base plus the symbol of a. */
  ghost predicate SlotIs(nodes: seq<Node>, path: seq<Str>, at: map<Str, nat>, placed: set<nat>, q: nat, a: nat) {
    && a < |path| <= |nodes| && path[a] != [] && Parent(path[a]) in at
    && Up(path, at, a) in placed && Up(path, at, a) < |nodes|
    && q == nodes[Up(path, at, a)].state + nodes[a].sym
  }

  ghost predicate BaseIs(nodes: seq<Node>, placed: set<nat>, q: nat, i: nat) {
    i in placed && i < |nodes| && nodes[i].state == q
  }

  /**
   * No two nodes share a base, no two share a slot, and a base that is also a slot belongs to a
   * state that keeps no back link there.
   */
  ghost predicate OverlapFree(nodes: seq<Node>, path: seq<Str>, at: map<Str, nat>, placed: set<nat>) {
    && (forall q: nat, i: nat, j: nat | BaseIs(nodes, placed, q, i) && BaseIs(nodes, placed, q, j) :: i == j)
    && (forall q: nat, a: nat, b: nat | SlotIs(nodes, path, at, placed, q, a)
        && SlotIs(nodes, path, at, placed, q, b) :: a == b)
    && (forall q: nat, a: nat, i: nat | SlotIs(nodes, path, at, placed, q, a) && BaseIs(nodes, placed, q, i) ::
        nodes[i].back == NULL)
  }

  /** What usev records of a position. */
  ghost predicate Tallied(usev: seq<Use>, nodes: seq<Node>, path: seq<Str>, at: map<Str, nat>, placed: set<nat>) {
    && (forall q: nat, i: nat | q < |usev| && BaseIs(nodes, placed, q, i) ::
        usev[q].base && (nodes[i].back != NULL ==> usev[q].used))
    && (forall q: nat, a: nat | q < |usev| && SlotIs(nodes, path, at, placed, q, a) :: usev[q].used)
  }

  /** A place for node i: a base nobody has, with nothing in the slots of its kids. */
  ghost predicate Fits(nodes: seq<Node>, path: seq<Str>, usev: seq<Use>, i: nat, pos: nat)
    requires i < |path| <= |nodes|
  {
    && pos < |usev| && !usev[pos].base
    && (nodes[i].back != NULL ==> !usev[pos].used)
    && KidsFit(nodes, path, usev, path[i], pos)
  }

  ghost predicate KidsFit(nodes: seq<Node>, path: seq<Str>, usev: seq<Use>, p: Str, pos: nat)
    requires |path| <= |nodes|
  {
    forall a: nat {:trigger IsKid(path, p, a)} | IsKid(path, p, a) ::
        pos + nodes[a].sym < |usev| && !usev[pos + nodes[a].sym].used
  }

  /** No child needs a slot that is in use. */
  method KidsFree(nodes: seq<Node>, i: nat, usev: seq<Use>, pos: nat, ghost path: seq<Str>, ghost at: map<Str, nat>)
    returns (ok: bool)
    requires Linked(nodes, path, at) && i < |path|
    requires forall a | 0 <= a < |path| :: pos + nodes[a].sym < |usev|
    ensures ok <==> KidsFit(nodes, path, usev, path[i], pos)
  {
    ghost var low: nat, bound := 0, HighestSym(nodes);
    FirstOf(nodes, path, at, i);
    var k := nodes[i].child;
    while k != 0
      invariant FirstFrom(nodes, path, at, path[i], low, k) && low <= bound + 1
      invariant forall a: nat {:trigger IsKid(path, path[i], a)} | IsKid(path, path[i], a) && nodes[a].sym < low ::
                !usev[pos + nodes[a].sym].used
      decreases bound + 1 - low
    {
      KidIs(path[i], nodes[k].sym, path[i], nodes[k].sym);
      if usev[pos + nodes[k].sym].used {
        assert IsKid(path, path[i], k);
        return false;
      }
      OnlyKidBelow(nodes, path, at, path[i], low, k);
      NextOf(nodes, path, at, k, path[i]);
      low, k := nodes[k].sym + 1, nodes[k].next;
    }
    NoKidFrom(nodes, path, at, path[i], low);
    ok := true;
  }

  /** Between low and the symbol of the first kid from there, there is only that kid. */
  lemma OnlyKidBelow(nodes: seq<Node>, path: seq<Str>, at: map<Str, nat>, p: Str, low: nat, k: nat)
    requires Linked(nodes, path, at) && k != 0 && FirstFrom(nodes, path, at, p, low, k)
    ensures forall a: nat {:trigger IsKid(path, p, a)} | IsKid(path, p, a) && low <= nodes[a].sym <= nodes[k].sym ::
            a == k
  {
    forall a: nat {:trigger IsKid(path, p, a)} | IsKid(path, p, a) && low <= nodes[a].sym <= nodes[k].sym
      ensures a == k
    {
      KidHasPath(nodes, path, at, p, a);
      assert HasKid(at, p, nodes[a].sym);
    }
  }

  lemma NoKidFrom(nodes: seq<Node>, path: seq<Str>, at: map<Str, nat>, p: Str, low: nat)
    requires Linked(nodes, path, at) && FirstFrom(nodes, path, at, p, low, 0)
    ensures forall a: nat {:trigger IsKid(path, p, a)} | IsKid(path, p, a) :: nodes[a].sym < low
  {
    forall a: nat {:trigger IsKid(path, p, a)} | IsKid(path, p, a) ensures nodes[a].sym < low {
      KidHasPath(nodes, path, at, p, a);
      assert HasKid(at, p, nodes[a].sym);
    }
  }

  lemma KidHasPath(nodes: seq<Node>, path: seq<Str>, at: map<Str, nat>, p: Str, a: nat)
    requires Linked(nodes, path, at) && IsKid(path, p, a)
    ensures a > 0 && path[a] == p + [nodes[a].sym] && nodes[a].sym > 0
  {
    assert NextLink(nodes, path, at, a);
    KidOfParent(path[a]);
  }

  /** The array reaches beyond everything in use, by more than any symbol. */
  ghost predicate Roomy(nodes: seq<Node>, path: seq<Str>, usev: seq<Use>, last: nat, nsyms: nat) {
    && |path| <= |nodes|
    && last + nsyms < |usev| && nsyms > 0
    && (forall a | 0 <= a < |path| :: nodes[a].sym < nsyms)
    && (forall p | last < p < |usev| :: usev[p] == Use(false, false))
  }

  /** The search for a base: the first place from `start` on that fits. */
  method FindPos(nodes: seq<Node>, i: nat, usev: seq<Use>, start: nat, ghost last: nat, ghost nsyms: nat,
      ghost path: seq<Str>, ghost at: map<Str, nat>)
    returns (pos: nat)
    requires Linked(nodes, path, at) && i < |path| && Roomy(nodes, path, usev, last, nsyms) && start <= last + 1
    ensures start <= pos <= last + 1 && Fits(nodes, path, usev, i, pos)
    ensures forall q | start <= q < pos :: !Fits(nodes, path, usev, i, q)
  {
    pos := start;
    while true
      invariant start <= pos <= last + 1
      invariant forall q | start <= q < pos :: !Fits(nodes, path, usev, i, q)
      decreases last + 1 - pos
    {
      if !usev[pos].base && (nodes[i].back == NULL || !usev[pos].used) {
        var ok := KidsFree(nodes, i, usev, pos, path, at);
        if ok {
          return;
        }
      }
      BeyondFits(nodes, path, usev, i, last, nsyms);
      pos := pos + 1;
    }
  }

  lemma BeyondFits(nodes: seq<Node>, path: seq<Str>, usev: seq<Use>, i: nat, last: nat, nsyms: nat)
    requires i < |path| && Roomy(nodes, path, usev, last, nsyms)
    ensures Fits(nodes, path, usev, i, last + 1)
  {
  }

  /** usev after the kids of p below `low` were marked. */
  ghost predicate KidsMarked(nodes: seq<Node>, path: seq<Str>, usev: seq<Use>, usev': seq<Use>, p: Str, pos: nat,
      low: nat)
    requires |path| <= |nodes|
  {
    && |usev'| == |usev|
    && forall q | 0 <= q < |usev| ::
         && usev'[q].base == usev[q].base
         && usev'[q].used == (usev[q].used || TakenByKid(nodes, path, p, pos, low, q))
  }

  ghost predicate TakenByKid(nodes: seq<Node>, path: seq<Str>, p: Str, pos: nat, low: nat, q: nat)
    requires |path| <= |nodes|
  {
    exists a: nat :: KidAt(nodes, path, p, pos, low, q, a)
  }

  ghost predicate KidAt(nodes: seq<Node>, path: seq<Str>, p: Str, pos: nat, low: nat, q: nat, a: nat)
    requires |path| <= |nodes|
  {
    IsKid(path, p, a) && nodes[a].sym < low && q == pos + nodes[a].sym
  }

  /** The kids of p below `low` are at the end of the queue, once each. */
  ghost predicate KidsQueued(nodes: seq<Node>, path: seq<Str>, p: Str, low: nat, v: seq<nat>, v': seq<nat>)
    requires |path| <= |nodes|
  {
    && v <= v'
    && (forall k | |v| <= k < |v'| :: IsKid(path, p, v'[k]) && nodes[v'[k]].sym < low)
    && (forall j, k | |v| <= j < k < |v'| :: v'[j] != v'[k])
    && (forall a: nat {:trigger IsKid(path, p, a)} | IsKid(path, p, a) && nodes[a].sym < low :: a in v'[|v|..])
  }

  /** Mark the slots of the kids of node i, queue them, and find the last slot. */
  method MarkKids(nodes: seq<Node>, i: nat, usev: seq<Use>, pos: nat, v: seq<nat>, ghost nsyms: nat,
      ghost path: seq<Str>, ghost at: map<Str, nat>)
    returns (usev': seq<Use>, v': seq<nat>, last: nat, nkids: nat)
    requires Linked(nodes, path, at) && i < |path| && nodes[i].child != 0
    requires forall a | 0 <= a < |path| :: nodes[a].sym < nsyms && pos + nodes[a].sym < |usev|
    ensures KidsMarked(nodes, path, usev, usev', path[i], pos, nsyms)
    ensures KidsQueued(nodes, path, path[i], nsyms, v, v') && nkids == |v'| - |v| > 0
    ensures pos < last < pos + nsyms && exists a: nat :: IsKid(path, path[i], a) && last == pos + nodes[a].sym
    ensures forall a: nat {:trigger IsKid(path, path[i], a)} | IsKid(path, path[i], a) :: pos + nodes[a].sym <= last
  {
    usev', v', last, nkids := usev, v, 0, 0;
    ghost var low: nat := 0;
    FirstOf(nodes, path, at, i);
    var k := nodes[i].child;
    while k != 0
      invariant FirstFrom(nodes, path, at, path[i], low, k) && low <= nsyms
      invariant KidsMarked(nodes, path, usev, usev', path[i], pos, low)
      invariant KidsQueued(nodes, path, path[i], low, v, v') && nkids == |v'| - |v|
      invariant low > 0 ==> nkids > 0 && last + 1 == pos + low
      invariant low > 0 ==> pos < last && exists a: nat :: IsKid(path, path[i], a) && last == pos + nodes[a].sym
      invariant low == 0 ==> k == nodes[i].child
      decreases nsyms - low
    {
      KidIs(path[i], nodes[k].sym, path[i], nodes[k].sym);
      assert IsKid(path, path[i], k);
      KidHasPath(nodes, path, at, path[i], k);
      OnlyKidBelow(nodes, path, at, path[i], low, k);
      MarkOne(nodes, path, usev, usev', path[i], pos, low, k);
      QueueOne(nodes, path, path[i], low, v, v', k);
      last := pos + nodes[k].sym;
      usev' := usev'[last := usev'[last].(used := true)];
      v', nkids := v' + [k], nkids + 1;
      NextOf(nodes, path, at, k, path[i]);
      low, k := nodes[k].sym + 1, nodes[k].next;
    }
    NoKidFrom(nodes, path, at, path[i], low);
    AllMarked(nodes, path, usev, usev', path[i], pos, low, nsyms);
  }

  lemma MarkOne(nodes: seq<Node>, path: seq<Str>, usev: seq<Use>, usev': seq<Use>, p: Str, pos: nat, low: nat, k: nat)
    requires |path| <= |nodes| && KidsMarked(nodes, path, usev, usev', p, pos, low) && IsKid(path, p, k)
             && low <= nodes[k].sym
    requires forall a: nat {:trigger IsKid(path, p, a)} | IsKid(path, p, a) && low <= nodes[a].sym <= nodes[k].sym ::
             a == k
    requires pos + nodes[k].sym < |usev|
    ensures var q := pos + nodes[k].sym;
            KidsMarked(nodes, path, usev, usev'[q := usev'[q].(used := true)], p, pos, nodes[k].sym + 1)
  {
    var low' := nodes[k].sym + 1;
    assert KidAt(nodes, path, p, pos, low', pos + nodes[k].sym, k);
    forall q | 0 <= q < |usev|
      ensures TakenByKid(nodes, path, p, pos, low', q) <==>
              TakenByKid(nodes, path, p, pos, low, q) || q == pos + nodes[k].sym
    {
      if a: nat :| KidAt(nodes, path, p, pos, low', q, a) {
        assert KidAt(nodes, path, p, pos, low, q, a) || a == k;
      }
      if a: nat :| KidAt(nodes, path, p, pos, low, q, a) {
        assert KidAt(nodes, path, p, pos, low', q, a);
      }
    }
  }

  lemma QueueOne(nodes: seq<Node>, path: seq<Str>, p: Str, low: nat, v: seq<nat>, v': seq<nat>, k: nat)
    requires |path| <= |nodes| && KidsQueued(nodes, path, p, low, v, v') && IsKid(path, p, k) && low <= nodes[k].sym
    requires forall a: nat {:trigger IsKid(path, p, a)} | IsKid(path, p, a) && low <= nodes[a].sym <= nodes[k].sym ::
             a == k
    ensures KidsQueued(nodes, path, p, nodes[k].sym + 1, v, v' + [k])
  {
    assert (v' + [k])[|v|..] == v'[|v|..] + [k];
  }

  lemma AllMarked(nodes: seq<Node>, path: seq<Str>, usev: seq<Use>, usev': seq<Use>, p: Str, pos: nat, low: nat,
      nsyms: nat)
    requires |path| <= |nodes| && KidsMarked(nodes, path, usev, usev', p, pos, low) && low <= nsyms
    requires forall a: nat {:trigger IsKid(path, p, a)} | IsKid(path, p, a) :: nodes[a].sym < low
    ensures KidsMarked(nodes, path, usev, usev', p, pos, nsyms)
  {
    forall q: nat, a: nat ensures KidAt(nodes, path, p, pos, low, q, a) <==> KidAt(nodes, path, p, pos, nsyms, q, a) {
    }
  }

  /** A node put where it fits, with its kids' slots marked, leaves everything overlap-free. */
  lemma PlacedFits(nodes: seq<Node>, path: seq<Str>, at: map<Str, nat>, placed: set<nat>, usev: seq<Use>, i: nat,
      pos: nat)
    requires Linked(nodes, path, at) && i < |path| && i !in placed
    requires OverlapFree(nodes, path, at, placed) && Tallied(usev, nodes, path, at, placed)
             && Fits(nodes, path, usev, i, pos)
    ensures OverlapFree(nodes[i := nodes[i].(state := pos)], path, at, placed + {i})
  {
    var nodes', placed' := nodes[i := nodes[i].(state := pos)], placed + {i};
    forall q: nat, a: nat | SlotIs(nodes', path, at, placed', q, a)
      ensures SlotIs(nodes, path, at, placed, q, a) || NewSlot(nodes, path, usev, i, pos, q, a)
    {
      if IsKid(path, path[i], a) {
        KidHasPath(nodes, path, at, path[i], a);
      }
    }
    forall q: nat, j: nat | BaseIs(nodes', placed', q, j) ensures BaseIs(nodes, placed, q, j) || (j == i && q == pos) {
    }
    forall q: nat, a: nat, b: nat | SlotIs(nodes', path, at, placed', q, a) && SlotIs(nodes', path, at, placed', q, b)
      ensures a == b
    {
      if NewSlot(nodes, path, usev, i, pos, q, a) && NewSlot(nodes, path, usev, i, pos, q, b) {
        KidHasPath(nodes, path, at, path[i], a);
        KidHasPath(nodes, path, at, path[i], b);
      }
    }
  }

  /** q is the slot of a kid of node i when its base is pos, and it was free. */
  ghost predicate NewSlot(nodes: seq<Node>, path: seq<Str>, usev: seq<Use>, i: nat, pos: nat, q: nat, a: nat)
    requires i < |path| <= |nodes|
  {
    IsKid(path, path[i], a) && nodes[a].sym > 0 && q == pos + nodes[a].sym && q < |usev| && !usev[q].used
  }

  lemma PlacedTallied(nodes: seq<Node>, path: seq<Str>, at: map<Str, nat>, placed: set<nat>, usev: seq<Use>, i: nat,
      pos: nat, usev': seq<Use>, nsyms: nat)
    requires Linked(nodes, path, at) && i < |path| && i !in placed && pos < |usev|
    requires Tallied(usev, nodes, path, at, placed)
    requires KidsMarked(nodes, path, usev[pos := Use(true, usev[pos].used || nodes[i].back != NULL)], usev', path[i],
             pos, nsyms)
    requires forall a | 0 <= a < |path| :: nodes[a].sym < nsyms
    ensures Tallied(usev', nodes[i := nodes[i].(state := pos)], path, at, placed + {i})
  {
    var nodes', placed' := nodes[i := nodes[i].(state := pos)], placed + {i};
    forall q: nat, a: nat | q < |usev'| && SlotIs(nodes', path, at, placed', q, a) ensures usev'[q].used {
      if !SlotIs(nodes, path, at, placed, q, a) {
        assert KidAt(nodes, path, path[i], pos, nsyms, q, a);
      }
    }
  }

  /** Everything in use is at most `last`. */
  ghost predicate Below(nodes: seq<Node>, path: seq<Str>, at: map<Str, nat>, placed: set<nat>, last: nat) {
    && (forall q: nat, i: nat | BaseIs(nodes, placed, q, i) :: q <= last)
    && (forall q: nat, a: nat | SlotIs(nodes, path, at, placed, q, a) :: q <= last)
  }

  lemma PlacedBelow(nodes: seq<Node>, path: seq<Str>, at: map<Str, nat>, placed: set<nat>, i: nat, pos: nat, last: nat,
      last': nat)
    requires Linked(nodes, path, at) && i < |path| && i !in placed && Below(nodes, path, at, placed, last)
             && last <= last'
    requires pos <= last' && forall a: nat {:trigger IsKid(path, path[i], a)} | IsKid(path, path[i], a) ::
             pos + nodes[a].sym <= last'
    ensures Below(nodes[i := nodes[i].(state := pos)], path, at, placed + {i}, last')
  {
    var nodes', placed' := nodes[i := nodes[i].(state := pos)], placed + {i};
    forall q: nat, a: nat | SlotIs(nodes', path, at, placed', q, a) ensures q <= last' {
      assert SlotIs(nodes, path, at, placed, q, a) || IsKid(path, path[i], a);
    }
    forall q: nat, j: nat | BaseIs(nodes', placed', q, j) ensures q <= last' {
      assert BaseIs(nodes, placed, q, j) || j == i;
    }
  }

  /** What the placing of nodes keeps. */
  ghost predicate Packing(nodes: seq<Node>, path: seq<Str>, at: map<Str, nat>, usev: seq<Use>, startv: seq<nat>,
      last: nat, nsyms: nat, placed: set<nat>) {
    && Linked(nodes, path, at)
    && Roomy(nodes, path, usev, last, nsyms)
    && OverlapFree(nodes, path, at, placed)
    && Tallied(usev, nodes, path, at, placed)
    && Below(nodes, path, at, placed, last)
    && |startv| == 2 * nsyms && forall k | 0 <= k < |startv| :: startv[k] <= last
  }

  /** A back link to the root is no link; that of a node without a base matters to nobody yet. */
  method SimplifyBack(tr: Tree, i: nat, ghost usev: seq<Use>, ghost startv: seq<nat>, ghost last: nat, ghost nsyms: nat,
      ghost placed: set<nat>)
    requires Packing(tr.nodes, tr.path, tr.at, usev, startv, last, nsyms, placed) && i < |tr.path| && i !in placed
    modifies tr`nodes
    ensures Packing(tr.nodes, tr.path, tr.at, usev, startv, last, nsyms, placed)
    ensures tr.nodes
            == old(tr.nodes)[i := old(tr.nodes)[i].(back := if old(tr.nodes)[i].back == 0 then NULL
                else old(tr.nodes)[i].back)]
  {
    ghost var was := tr.nodes;
    tr.nodes := tr.nodes[i := tr.nodes[i].(back := if tr.nodes[i].back == 0 then NULL else tr.nodes[i].back)];
    SameLinks(was, tr.nodes, tr.path, tr.at);
    BackNotUsedYet(was, tr.nodes, tr.path, tr.at, usev, last, placed, i);
  }

  lemma BackNotUsedYet(nodes: seq<Node>, nodes': seq<Node>, path: seq<Str>, at: map<Str, nat>, usev: seq<Use>,
      last: nat, placed: set<nat>, i: nat)
    requires OverlapFree(nodes, path, at, placed) && Tallied(usev, nodes, path, at, placed)
             && Below(nodes, path, at, placed, last)
    requires i < |nodes| == |nodes'| && i !in placed && nodes' == nodes[i := nodes[i].(back := nodes'[i].back)]
    ensures OverlapFree(nodes', path, at, placed) && Tallied(usev, nodes', path, at, placed)
            && Below(nodes', path, at, placed, last)
  {
    forall q: nat, j: nat ensures BaseIs(nodes', placed, q, j) <==> BaseIs(nodes, placed, q, j) {
    }
    forall q: nat, a: nat ensures SlotIs(nodes', path, at, placed, q, a) <==> SlotIs(nodes, path, at, placed, q, a) {
    }
  }

  /** The entry of startv for a symbol, one for nodes with a back link and one for those without. */
  function StartIndex(sym: nat, hasBack: bool): nat {
    2 * sym + if hasBack then 1 else 0
  }

  /** No kid with a symbol below `low` has a higher mark. */
  ghost predicate HighestUpTo(nodes: seq<Node>, path: seq<Str>, startv: seq<nat>, p: Str, linked: bool, low: nat,
      start: nat) {
    && |path| <= |nodes| && start < |startv|
    && forall a: nat {:trigger IsKid(path, p, a)} | IsKid(path, p, a) && nodes[a].sym < low ::
         StartIndex(nodes[a].sym, linked) < |startv| && startv[StartIndex(nodes[a].sym, linked)] <= startv[start]
  }

  /** Where to start looking: the highest mark among the kids' symbols. */
  method PickStart(nodes: seq<Node>, i: nat, startv: seq<nat>, ghost nsyms: nat, ghost path: seq<Str>,
      ghost at: map<Str, nat>)
    returns (start: nat)
    requires Linked(nodes, path, at) && i < |path| && nodes[i].child != 0 && |startv| == 2 * nsyms
    requires forall a | 0 <= a < |path| :: nodes[a].sym < nsyms
    ensures HighestUpTo(nodes, path, startv, path[i], nodes[i].back != NULL, nsyms, start)
  {
    FirstOf(nodes, path, at, i);
    var k := nodes[i].child;
    OnlyKidBelow(nodes, path, at, path[i], 0, k);
    start := StartIndex(nodes[k].sym, nodes[i].back != NULL);
    ghost var low := nodes[k].sym + 1;
    NextOf(nodes, path, at, k, path[i]);
    k := nodes[k].next;
    while k != 0
      invariant FirstFrom(nodes, path, at, path[i], low, k) && low <= nsyms
      invariant HighestUpTo(nodes, path, startv, path[i], nodes[i].back != NULL, low, start)
      decreases nsyms - low
    {
      OnlyKidBelow(nodes, path, at, path[i], low, k);
      var other := StartIndex(nodes[k].sym, nodes[i].back != NULL);
      if startv[start] < startv[other] {
        start := other;
      }
      low := nodes[k].sym + 1;
      NextOf(nodes, path, at, k, path[i]);
      k := nodes[k].next;
    }
    NoKidFrom(nodes, path, at, path[i], low);
  }

  /** Twice the room, the new half free. */
  method GrowIfNeeded(usev: seq<Use>, last: nat, nsyms: nat) returns (usev': seq<Use>)
    requires last < |usev| && nsyms < |usev|
    ensures last + nsyms < |usev'| && usev <= usev'
    ensures forall q | |usev| <= q < |usev'| :: usev'[q] == Use(false, false)
  {
    usev' := usev;
    if last + nsyms >= |usev| {
      usev' := usev + seq(|usev|, _ => Use(false, false));
    }
  }

  lemma StillRoomy(nodes: seq<Node>, path: seq<Str>, usev: seq<Use>, last: nat, nsyms: nat, i: nat, pos: nat,
      usev': seq<Use>, tail: nat, grown: seq<Use>, last': nat)
    requires Roomy(nodes, path, usev, last, nsyms) && i < |path| && pos < |usev|
    requires KidsMarked(nodes, path, usev[pos := Use(true, usev[pos].used || nodes[i].back != NULL)], usev', path[i],
             pos, nsyms)
    requires pos < tail && forall a: nat {:trigger IsKid(path, path[i], a)} | IsKid(path, path[i], a) ::
             pos + nodes[a].sym <= tail
    requires last <= last' && tail <= last' && last' + nsyms < |grown| && usev' <= grown
    requires forall q | |usev'| <= q < |grown| :: grown[q] == Use(false, false)
    ensures Roomy(nodes[i := nodes[i].(state := pos)], path, grown, last', nsyms)
  {
    forall q | last' < q < |usev'| ensures usev'[q] == Use(false, false) {
    }
  }

  lemma TalliedGrows(usev: seq<Use>, grown: seq<Use>, nodes: seq<Node>, path: seq<Str>, at: map<Str, nat>,
      placed: set<nat>, last: nat)
    requires Tallied(usev, nodes, path, at, placed) && Below(nodes, path, at, placed, last) && last < |usev|
             && usev <= grown
    ensures Tallied(grown, nodes, path, at, placed)
  {
  }

  /** The base is chosen: the node's state number is known and all is overlap-free again. */
  lemma PackedOneMore(nodes: seq<Node>, path: seq<Str>, at: map<Str, nat>, usev: seq<Use>, startv: seq<nat>, last: nat,
      nsyms: nat, placed: set<nat>,
    i: nat, pos: nat, usev': seq<Use>, tail: nat, grown: seq<Use>, last': nat, startv': seq<nat>)
    requires Packing(nodes, path, at, usev, startv, last, nsyms, placed) && i < |path| && i !in placed
    requires Fits(nodes, path, usev, i, pos)
    requires KidsMarked(nodes, path, usev[pos := Use(true, usev[pos].used || nodes[i].back != NULL)], usev', path[i],
             pos, nsyms)
    requires pos < tail && forall a: nat {:trigger IsKid(path, path[i], a)} | IsKid(path, path[i], a) ::
             pos + nodes[a].sym <= tail
    requires last' == (if last < tail then tail else last) < |usev'| && last' + nsyms < |grown| && usev' <= grown
    requires forall q | |usev'| <= q < |grown| :: grown[q] == Use(false, false)
    requires |startv'| == |startv| && forall k | 0 <= k < |startv| :: startv'[k] <= last'
    ensures Packing(nodes[i := nodes[i].(state := pos)], path, at, grown, startv', last', nsyms, placed + {i})
  {
    var nodes' := nodes[i := nodes[i].(state := pos)];
    SameLinks(nodes, nodes', path, at);
    StillRoomy(nodes, path, usev, last, nsyms, i, pos, usev', tail, grown, last');
    PlacedFits(nodes, path, at, placed, usev, i, pos);
    PlacedBelow(nodes, path, at, placed, i, pos, last, last');
    PlacedTallied(nodes, path, at, placed, usev, i, pos, usev', nsyms);
    TalliedGrows(usev', grown, nodes', path, at, placed + {i}, last');
  }

  /** The heuristic start moves towards the place found, never beyond it. */
  lemma StartMoves(s: nat, pos: nat, n: nat)
    requires s <= pos && n > 0
    ensures 0 <= (pos - s) / n && s + (pos - s) / n <= pos
  {
    QuotientSmaller(pos - s, n, (pos - s) / n);
  }

  lemma QuotientSmaller(d: nat, n: nat, k: int)
    requires n > 0 && k == d / n
    ensures 0 <= k <= d
  {
    assert k >= 0;
    Product(n - 1, k);
    assert d == n * k + d % n;
  }

  lemma Product(m: nat, k: nat)
    ensures m * k >= 0
    ensures (m + 1) * k == m * k + k
  {
  }

  /** n symbols, k times. */
  ghost function Room(n: nat, k: nat): nat {
    if k == 0 then 0 else Room(n, k - 1) + n
  }

  lemma {:induction false} RoomIs(n: nat, k: nat)
    ensures Room(n, k) == n * k
  {
    if k > 0 {
      RoomIs(n, k - 1);
      assert n * k == n * (k - 1) + n;
    }
  }

  lemma {:induction false} RoomGrows(n: nat, j: nat, k: nat)
    requires j <= k
    ensures Room(n, j) <= Room(n, k)
  {
    if j < k {
      RoomGrows(n, j, k - 1);
    }
  }

  /** Each state takes at most as many new places as there are symbols. */
  ghost predicate Tight(last: nat, nsyms: nat, placed: set<nat>) {
    last <= Room(nsyms, |placed|)
  }

  lemma TightMore(last: nat, last': nat, nsyms: nat, placed: set<nat>, i: nat)
    requires Tight(last, nsyms, placed) && last' <= last + nsyms && i !in placed
    ensures Tight(last', nsyms, placed + {i})
  {
    assert |placed + {i}| == |placed| + 1;
  }

  lemma {:induction false} TightAtMost(last: nat, nsyms: nat, placed: set<nat>, n: nat)
    requires Tight(last, nsyms, placed) && forall i | i in placed :: i < n
    ensures last <= Room(nsyms, n)
  {
    FewerThan(placed, n);
    RoomGrows(nsyms, |placed|, n);
  }

  lemma {:induction false} FewerThan(s: set<nat>, n: nat)
    requires forall i | i in s :: i < n
    ensures |s| <= n
  {
    if n == 0 {
      assert s == {};
    } else {
      FewerThan(s - {n - 1}, n - 1);
    }
  }

  /** One state: find its base, mark its slots, queue its kids. */
  method PlaceNode(tr: Tree, i: nat, usev: seq<Use>, startv: seq<nat>, last: nat, nsyms: nat, v: seq<nat>,
      ghost placed: set<nat>)
    returns (usev': seq<Use>, startv': seq<nat>, last': nat, v': seq<nat>)
    requires Packing(tr.nodes, tr.path, tr.at, usev, startv, last, nsyms, placed) && i < |tr.path| && i !in placed
             && tr.nodes[i].child != 0
    modifies tr`nodes
    ensures Packing(tr.nodes, tr.path, tr.at, usev', startv', last', nsyms, placed + {i})
            && |tr.nodes| == old(|tr.nodes|)
    ensures tr.nodes == old(tr.nodes)[i := old(tr.nodes)[i].(state := tr.nodes[i].state)]
    ensures KidsQueued(tr.nodes, tr.path, tr.path[i], nsyms, v, v') && last <= last' <= last + nsyms
    ensures last == 0 && usev[0] == Use(false, false) ==> tr.nodes[i].state == 0
  {
    var start := PickStart(tr.nodes, i, startv, nsyms, tr.path, tr.at);
    var pos := FindPos(tr.nodes, i, usev, startv[start], last, nsyms, tr.path, tr.at);
    var marked := usev[pos := Use(true, usev[pos].used || tr.nodes[i].back != NULL)];
    var tail, nkids;
    usev', v', tail, nkids := MarkKids(tr.nodes, i, marked, pos, v, nsyms, tr.path, tr.at);
    StartMoves(startv[start], pos, nkids);
    startv' := startv[start := startv[start] + (pos - startv[start]) / nkids];
    ghost var tight := usev';
    last' := last;
    if last < tail {
      last' := tail;
      usev' := GrowIfNeeded(usev', tail, nsyms);
    }
    PackedOneMore(tr.nodes, tr.path, tr.at, usev, startv, last, nsyms, placed, i, pos, tight, tail, usev', last',
        startv');
    FirstPos(tr.nodes, tr.path, usev, i, last, nsyms);
    tr.nodes := tr.nodes[i := tr.nodes[i].(state := pos)];
  }

  /** Into an empty array the first node goes at 0. */
  lemma FirstPos(nodes: seq<Node>, path: seq<Str>, usev: seq<Use>, i: nat, last: nat, nsyms: nat)
    requires Roomy(nodes, path, usev, last, nsyms) && i < |path|
    ensures last == 0 && usev[0] == Use(false, false) ==> Fits(nodes, path, usev, i, 0)
  {
  }
}
