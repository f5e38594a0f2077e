// The two passes of fill_hashv in contrib/aho-corasick/acism_create.c over the tree.
module AcFillHash {
  import opened AcSpec
  import opened AcTrie
  import opened AcLinks
  import opened AcTable
  import opened AcHash
  import opened AcPack
  import opened AcInterleave

  /** The nodes that are both a pattern and a state. */
  ghost function Marked(nodes: seq<Node>, n: nat): set<nat>
    requires n <= |nodes|
  {
    set a: nat | 0 < a < n && nodes[a].matched != 0 && nodes[a].child != 0
  }

  /** nhash, counted over all nodes but the root. */
  method CountMarked(nodes: seq<Node>, n: nat) returns (nhash: nat)
    requires 0 < n <= |nodes|
    ensures nhash == |Marked(nodes, n)|
  {
    nhash := 0;
    ghost var seen: set<nat> := {};
    var t := n - 1;
    while t > 0
      invariant 0 <= t < n && nhash == |seen|
      invariant forall a: nat :: a in seen <==> t < a < n && nodes[a].matched != 0 && nodes[a].child != 0
    {
      if nodes[t].matched != 0 && nodes[t].child != 0 {
        nhash, seen := nhash + 1, seen + {t};
      }
      t := t - 1;
    }
    assert seen == Marked(nodes, n);
  }

  /** The hash entry of such a node. */
  ghost function ItemOf(nodes: seq<Node>, path: seq<Str>, at: map<Str, nat>, a: nat): Strash {
    if a < |nodes| && Up(path, at, a) < |nodes| && nodes[a].matched > 0
    then Strash(nodes[Up(path, at, a)].state + nodes[a].sym, nodes[a].matched - 1) else FREE
  }

  ghost function Items(nodes: seq<Node>, path: seq<Str>, at: map<Str, nat>, done: set<nat>): set<Strash> {
    set a | a in done :: ItemOf(nodes, path, at, a)
  }

  lemma OneMoreItem(nodes: seq<Node>, path: seq<Str>, at: map<Str, nat>, done: set<nat>, a: nat)
    ensures Items(nodes, path, at, done + {a}) == Items(nodes, path, at, done) + {ItemOf(nodes, path, at, a)}
  {
  }

  /** Entries of the marked nodes have a state each of their own. */
  lemma ItemsDiffer(nodes: seq<Node>, path: seq<Str>, at: map<Str, nat>, ps: seq<Str>, placed: set<nat>, tranSize: nat)
    requires Trie(nodes, path, at, ps) && Packed(nodes, path, at, placed, tranSize)
    ensures OneEach(Items(nodes, path, at, Marked(nodes, |path|)))
    ensures forall x | x in Items(nodes, path, at, Marked(nodes, |path|)) :: x.state != 0
  {
    var m := Marked(nodes, |path|);
    forall a: nat | a in m ensures ItemOf(nodes, path, at, a).state != 0 {
      ItemIsSlot(nodes, path, at, ps, placed, tranSize, a);
    }
    forall a: nat, b: nat | a in m && b in m && ItemOf(nodes, path, at, a).state == ItemOf(nodes, path, at, b).state
      ensures a == b
    {
      ItemOwnsState(nodes, path, at, ps, placed, tranSize, a, b);
    }
    ItemsOneEach(nodes, path, at, m);
  }

  lemma ItemOwnsState(nodes: seq<Node>, path: seq<Str>, at: map<Str, nat>, ps: seq<Str>, placed: set<nat>,
      tranSize: nat, a: nat, b: nat)
    requires Trie(nodes, path, at, ps) && Packed(nodes, path, at, placed, tranSize)
    requires a in Marked(nodes, |path|) && b in Marked(nodes, |path|)
             && ItemOf(nodes, path, at, a).state == ItemOf(nodes, path, at, b).state
    ensures a == b
  {
    ItemIsSlot(nodes, path, at, ps, placed, tranSize, a);
    ItemIsSlot(nodes, path, at, ps, placed, tranSize, b);
  }

  lemma ItemsOneEach(nodes: seq<Node>, path: seq<Str>, at: map<Str, nat>, m: set<nat>)
    requires forall a: nat, b: nat | a in m && b in m
             && ItemOf(nodes, path, at, a).state == ItemOf(nodes, path, at, b).state :: a == b
    ensures OneEach(Items(nodes, path, at, m))
  {
  }

  lemma ItemIsSlot(nodes: seq<Node>, path: seq<Str>, at: map<Str, nat>, ps: seq<Str>, placed: set<nat>, tranSize: nat,
      a: nat)
    requires Trie(nodes, path, at, ps) && Packed(nodes, path, at, placed, tranSize) && 0 < a < |path|
    ensures Up(path, at, a) < |path| && path[a] != [] && path[a] == path[Up(path, at, a)] + [nodes[a].sym]
            && nodes[a].sym > 0
    ensures SlotIs(nodes, path, at, placed, nodes[Up(path, at, a)].state + nodes[a].sym, a)
  {
    assert NextLink(nodes, path, at, a);
    KidOfParent(path[a]);
    TrieClosed(nodes, path, at, ps, path[a]);
    var i := Up(path, at, a);
    FirstOf(nodes, path, at, i);
    assert HasKid(at, path[i], nodes[a].sym);
  }

  ghost function ToSet(stack: seq<Strash>): set<Strash> {
    set x | x in stack
  }

  /** What is in the table and what still waits on the stack. */
  ghost predicate Filling(hv: seq<Strash>, stack: seq<Strash>, hashMod: nat, inHv: set<Strash>, items: set<Strash>,
      count: nat)
  {
    && hashMod > 0 && hashMod <= |hv|
    && Stores(hv, hashMod, inHv)
    && inHv + ToSet(stack) == items
    && (forall x | x in items :: x.state != 0)
    && InUse(hv) + |stack| == count
  }

  /** One entry in the first pass: into its own cell if that is free, else onto the stack. */
  method Offer(hv: seq<Strash>, stack: seq<Strash>, hashMod: nat, e: Strash, ghost inHv: set<Strash>,
      ghost items: set<Strash>, ghost count: nat)
    returns (hv': seq<Strash>, stack': seq<Strash>, ghost inHv': set<Strash>)
    requires Filling(hv, stack, hashMod, inHv, items, count) && e.state != 0
    ensures Filling(hv', stack', hashMod, inHv', items + {e}, count + 1) && |hv'| == |hv|
  {
    var h := HashOf(e.state, hashMod);
    if hv[h].state == 0 {
      StoresOneMore(hv, hashMod, inHv, e, h);
      OneMoreInUse(hv, h, e);
      hv', stack', inHv' := hv[h := e], stack, inHv + {e};
    } else {
      hv', stack', inHv' := hv, stack + [e], inHv;
      assert ToSet(stack') == ToSet(stack) + {e};
    }
  }

  /** The second pass: the stack is emptied from the top, each entry into the first free cell. */
  method Settle(hv: seq<Strash>, stack: seq<Strash>, hashMod: nat, ghost inHv: set<Strash>, ghost items: set<Strash>,
      ghost count: nat)
    returns (hv': seq<Strash>)
    requires Filling(hv, stack, hashMod, inHv, items, count) && hashMod + count <= |hv|
    ensures Stores(hv', hashMod, items) && InUse(hv') == count && |hv'| == |hv|
  {
    hv' := hv;
    var sp := |stack|;
    ghost var inNow := inHv;
    while sp > 0
      invariant 0 <= sp <= |stack| && |hv'| == |hv| && Filling(hv', stack[..sp], hashMod, inNow, items, count)
    {
      sp := sp - 1;
      ghost var was := inNow;
      hv' := Insert(hv', hashMod, stack[sp], inNow, count);
      inNow := inNow + {stack[sp]};
      assert stack[..sp + 1] == stack[..sp] + [stack[sp]];
      assert ToSet(stack[..sp + 1]) == ToSet(stack[..sp]) + {stack[sp]};
    }
  }

  /** The marked nodes met so far: those of earlier parents, and of this one those below `low`. */
  ghost predicate Met(nodes: seq<Node>, path: seq<Str>, at: map<Str, nat>, done: set<nat>, i: nat, low: nat)
  {
    && |path| <= |nodes|
    && forall a: nat :: a in done <==>
        a in Marked(nodes, |path|) && (Up(path, at, a) < i || (Up(path, at, a) == i && nodes[a].sym < low))
  }

  lemma MetNext(nodes: seq<Node>, path: seq<Str>, at: map<Str, nat>, ps: seq<Str>, placed: set<nat>, tranSize: nat,
      done: set<nat>, i: nat, low: nat, k: nat)
    requires Trie(nodes, path, at, ps) && Packed(nodes, path, at, placed, tranSize)
    requires i < |path| && Met(nodes, path, at, done, i, low) && k != 0 && FirstFrom(nodes, path, at, path[i], low, k)
    ensures k !in done && Up(path, at, k) == i
    ensures Met(nodes, path, at, if k in Marked(nodes, |path|) then done + {k} else done, i, nodes[k].sym + 1)
  {
    KidIs(path[i], nodes[k].sym, path[i], nodes[k].sym);
    assert Up(path, at, k) == i;
    OnlyKidBelow(nodes, path, at, path[i], low, k);
    forall a: nat | a in Marked(nodes, |path|) && Up(path, at, a) == i ensures IsKid(path, path[i], a) {
      ItemIsSlot(nodes, path, at, ps, placed, tranSize, a);
      KidIs(path[i], nodes[a].sym, path[i], nodes[a].sym);
    }
  }

  lemma MetAll(nodes: seq<Node>, path: seq<Str>, at: map<Str, nat>, ps: seq<Str>, placed: set<nat>, tranSize: nat,
      done: set<nat>, i: nat, low: nat)
    requires Trie(nodes, path, at, ps) && Packed(nodes, path, at, placed, tranSize)
    requires i < |path| && Met(nodes, path, at, done, i, low) && FirstFrom(nodes, path, at, path[i], low, 0)
    ensures Met(nodes, path, at, done, i + 1, 0)
  {
    NoKidFrom(nodes, path, at, path[i], low);
    forall a: nat | a in Marked(nodes, |path|) && Up(path, at, a) == i ensures IsKid(path, path[i], a) {
      ItemIsSlot(nodes, path, at, ps, placed, tranSize, a);
      KidIs(path[i], nodes[a].sym, path[i], nodes[a].sym);
    }
  }

  /** Where the first pass stands. */
  ghost predicate Passing(nodes: seq<Node>, path: seq<Str>, at: map<Str, nat>, hv: seq<Strash>, stack: seq<Strash>,
      hashMod: nat, inHv: set<Strash>, done: set<nat>, i: nat, low: nat) {
    && Met(nodes, path, at, done, i, low)
    && Filling(hv, stack, hashMod, inHv, Items(nodes, path, at, done), |done|)
  }

  /** One kid in the first pass. */
  method OfferKid(nodes: seq<Node>, i: nat, k: nat, hv: seq<Strash>, stack: seq<Strash>, hashMod: nat,
    ghost path: seq<Str>, ghost at: map<Str, nat>, ghost ps: seq<Str>, ghost placed: set<nat>, ghost tranSize: nat,
        ghost inHv: set<Strash>, ghost done: set<nat>, ghost low: nat)
    returns (hv': seq<Strash>, stack': seq<Strash>, ghost inHv': set<Strash>, ghost done': set<nat>)
    requires Trie(nodes, path, at, ps) && Packed(nodes, path, at, placed, tranSize) && i < |path| && k != 0
    requires Passing(nodes, path, at, hv, stack, hashMod, inHv, done, i, low)
             && FirstFrom(nodes, path, at, path[i], low, k)
    ensures Passing(nodes, path, at, hv', stack', hashMod, inHv', done', i, nodes[k].sym + 1) && |hv'| == |hv|
  {
    MetNext(nodes, path, at, ps, placed, tranSize, done, i, low, k);
    if nodes[k].matched != 0 && nodes[k].child != 0 {
      ItemIsSlot(nodes, path, at, ps, placed, tranSize, k);
      hv', stack',
          inHv' := Offer(hv, stack, hashMod, Strash(nodes[i].state + nodes[k].sym, nodes[k].matched - 1), inHv,
              Items(nodes, path, at, done), |done|);
      done' := done + {k};
      OneMoreItem(nodes, path, at, done, k);
    } else {
      hv', stack', inHv', done' := hv, stack, inHv, done;
    }
  }

  /** All kids of one node in the first pass. */
  method OfferKids(nodes: seq<Node>, i: nat, hv: seq<Strash>, stack: seq<Strash>, hashMod: nat,
    ghost path: seq<Str>, ghost at: map<Str, nat>, ghost ps: seq<Str>, ghost placed: set<nat>, ghost tranSize: nat,
        ghost inHv: set<Strash>, ghost done: set<nat>)
    returns (hv': seq<Strash>, stack': seq<Strash>, ghost inHv': set<Strash>, ghost done': set<nat>)
    requires Trie(nodes, path, at, ps) && Packed(nodes, path, at, placed, tranSize) && i < |path|
    requires Passing(nodes, path, at, hv, stack, hashMod, inHv, done, i, 0)
    ensures Passing(nodes, path, at, hv', stack', hashMod, inHv', done', i + 1, 0) && |hv'| == |hv|
  {
    hv', stack', inHv', done' := hv, stack, inHv, done;
    ghost var low: nat, bound := 0, HighestSym(nodes);
    FirstOf(nodes, path, at, i);
    var k: nat := nodes[i].child;
    while k != 0
      invariant Passing(nodes, path, at, hv', stack', hashMod, inHv', done', i, low) && |hv'| == |hv|
      invariant FirstFrom(nodes, path, at, path[i], low, k) && low <= bound + 1
      decreases bound + 1 - low
    {
      hv', stack', inHv',
          done' := OfferKid(nodes, i, k, hv', stack', hashMod, path, at, ps, placed, tranSize, inHv', done', low);
      NextOf(nodes, path, at, k, path[i]);
      low, k := nodes[k].sym + 1, nodes[k].next;
    }
    MetAll(nodes, path, at, ps, placed, tranSize, done', i, low);
  }

  /** fill_hashv and the trimming after it: the table holds the entry of every marked node. */
  method FillHashv(nodes: seq<Node>, nnodes: nat, nhash: nat, hashMod: nat,
    ghost path: seq<Str>, ghost at: map<Str, nat>, ghost ps: seq<Str>, ghost placed: set<nat>, ghost tranSize: nat)
    returns (hashv: seq<Strash>)
    requires Trie(nodes, path, at, ps) && Packed(nodes, path, at, placed, tranSize) && nnodes == |path|
    requires nhash == |Marked(nodes, |path|)| > 0 && hashMod > 0
    ensures Stores(hashv, hashMod, Items(nodes, path, at, Marked(nodes, |path|)))
  {
    var hv: seq<Strash> := seq(hashMod + nhash, _ => FREE);
    var stack: seq<Strash> := [];
    ghost var inHv: set<Strash>, done: set<nat> := {}, {};
    NoneInUse(hv);
    assert Met(nodes, path, at, done, 0, 0);
    for i := 0 to nnodes
      invariant Passing(nodes, path, at, hv, stack, hashMod, inHv, done, i, 0) && |hv| == hashMod + nhash
    {
      hv, stack, inHv, done := OfferKids(nodes, i, hv, stack, hashMod, path, at, ps, placed, tranSize, inHv, done);
    }
    AllMet(nodes, path, at, ps, placed, tranSize, done);
    hv := Settle(hv, stack, hashMod, inHv, Items(nodes, path, at, done), nhash);
    ItemsDiffer(nodes, path, at, ps, placed, tranSize);
    SomeItem(nodes, path, at, done);
    var size := Trim(hv, hashMod, Items(nodes, path, at, done));
    hashv := hv[..size];
  }

  lemma SomeItem(nodes: seq<Node>, path: seq<Str>, at: map<Str, nat>, done: set<nat>)
    requires |done| > 0
    ensures Items(nodes, path, at, done) != {}
  {
    var a :| a in done;
    assert ItemOf(nodes, path, at, a) in Items(nodes, path, at, done);
  }

  lemma AllMet(nodes: seq<Node>, path: seq<Str>, at: map<Str, nat>, ps: seq<Str>, placed: set<nat>, tranSize: nat,
      done: set<nat>)
    requires Trie(nodes, path, at, ps) && Packed(nodes, path, at, placed, tranSize)
             && Met(nodes, path, at, done, |path|, 0)
    ensures done == Marked(nodes, |path|)
  {
    forall a: nat | a in Marked(nodes, |path|) ensures a in done {
      ItemIsSlot(nodes, path, at, ps, placed, tranSize, a);
    }
  }
}
