// add_backlinks of contrib/aho-corasick/acism_create.c: back links and suffix flags, level by level.
module AcLinks {
  import opened AcSpec
  import opened AcChain
  import opened AcTrie
  import opened AcBack

  /** The finished tree of ps, whatever its links, flags and state numbers are. */
  ghost predicate Trie(nodes: seq<Node>, path: seq<Str>, at: map<Str, nat>, ps: seq<Str>) {
    && Linked(nodes, path, at)
    && (forall u :: u in at <==> Known(ps, u))
    && Matches(nodes, path, ps)
  }

  ghost predicate LinkSet(nodes: seq<Node>, path: seq<Str>, at: map<Str, nat>, ps: seq<Str>, i: nat)
    requires i < |path| <= |nodes|
  {
    if path[i] == [] then nodes[i].back == NULL && !nodes[i].isSuffix
    else
      && LinkOf(ps, path[i]) in at && nodes[i].back == at[LinkOf(ps, path[i])]
      && nodes[i].isSuffix == SuffixFlag(ps, path[i])
  }

  /** All nodes of at most this depth have their links. */
  ghost predicate LinksUpTo(nodes: seq<Node>, path: seq<Str>, at: map<Str, nat>, ps: seq<Str>, d: nat) {
    && |path| <= |nodes|
    && forall i {:trigger LinkSet(nodes, path, at, ps, i)} | 0 <= i < |path| && |path[i]| <= d ::
        LinkSet(nodes, path, at, ps, i)
  }

  /** Nodes that differ in links and flags only. */
  ghost predicate SameShape(nodes: seq<Node>, nodes': seq<Node>) {
    && |nodes| == |nodes'|
    && forall i | 0 <= i < |nodes| :: nodes'[i] == nodes[i].(back := nodes'[i].back, isSuffix := nodes'[i].isSuffix)
  }

  lemma TrieKept(nodes: seq<Node>, nodes': seq<Node>, path: seq<Str>, at: map<Str, nat>, ps: seq<Str>)
    requires Trie(nodes, path, at, ps) && SameShape(nodes, nodes')
    ensures Trie(nodes', path, at, ps)
  {
    SameLinks(nodes, nodes', path, at);
  }

  /** Whether a node has children is whether its string is a state. */
  lemma ChildIffState(nodes: seq<Node>, path: seq<Str>, at: map<Str, nat>, ps: seq<Str>, i: nat)
    requires Trie(nodes, path, at, ps) && i < |path| && path[i] != []
    ensures nodes[i].child != 0 <==> IsState(ps, path[i])
  {
    var s := path[i];
    FirstOf(nodes, path, at, i);
    if nodes[i].child != 0 {
      var k := nodes[i].child;
      assert IsNode(ps, path[k]);
      StatePrefix(ps, s, nodes[k].sym);
    }
    if IsState(ps, s) {
      var j :| 0 <= j < |ps| && s < ps[j];
      assert s + [ps[j][|s|]] <= ps[j];
      assert HasKid(at, s, ps[j][|s|]);
    }
  }

  /** find_child. */
  method FindChild(nodes: seq<Node>, t: nat, sym: nat, ghost path: seq<Str>, ghost at: map<Str, nat>) returns (k: nat)
    requires Linked(nodes, path, at) && t < |path|
    ensures k != 0 <==> path[t] + [sym] in at
    ensures k != 0 ==> k < |path| && path[k] == path[t] + [sym]
  {
    ghost var low: nat := 0;
    FirstOf(nodes, path, at, t);
    k := nodes[t].child;
    while k != 0 && nodes[k].sym < sym
      invariant FirstFrom(nodes, path, at, path[t], low, k) && low <= sym
      invariant k < |path|
      decreases if k == 0 then 0 else 1 + sym - nodes[k].sym
    {
      low := nodes[k].sym + 1;
      NextOf(nodes, path, at, k, path[t]);
      k := nodes[k].next;
    }
    assert HasKid(at, path[t], sym) <==> path[t] + [sym] in at;
    if k != 0 && nodes[k].sym != sym {
      k := 0;
    }
  }

  /** The walk along the links from src for a child with sym: the node and the child, or NULL and the root. */
  method SearchChain(nodes: seq<Node>, src: nat, sym: nat, ghost path: seq<Str>, ghost at: map<Str, nat>,
      ghost ps: seq<Str>)
    returns (t: int, b: nat)
    requires Trie(nodes, path, at, ps) && src < |path| && path[src] != [] && LinksUpTo(nodes, path, at, ps, |path[src]|)
    ensures var x := LinkOf(ps, path[src]);
            if Finds(ps, x, sym) then
              0 <= t < |path| && path[t] == FirstWith(ps, x, sym) && b < |path|
                  && path[b] == FirstWith(ps, x, sym) + [sym]
            else t == NULL && b == 0
  {
    assert LinkSet(nodes, path, at, ps, src);
    ghost var x := LinkOf(ps, path[src]);
    t, b := nodes[src].back, 0;
    while t != NULL
      invariant t != NULL ==> 0 <= t < |path| && path[t] == x && |x| < |path[src]|
      invariant t != NULL ==> (Finds(ps, x, sym) <==> Finds(ps, LinkOf(ps, path[src]), sym))
      invariant t != NULL && Finds(ps, x, sym) ==> FirstWith(ps, x, sym) == FirstWith(ps, LinkOf(ps, path[src]), sym)
      invariant t == NULL ==> !Finds(ps, LinkOf(ps, path[src]), sym)
      decreases if t == NULL then 0 else 1 + |x|
    {
      b := FindChild(nodes, t, sym, path, at);
      if b != 0 {
        return;
      }
      assert x + [sym] !in at;
      assert LinkSet(nodes, path, at, ps, t);
      t := nodes[t].back;
      if x != [] {
        x := LinkOf(ps, x);
      }
    }
  }

  /** What the walk found is what the link and the flag of dst are. */
  lemma FoundIsLink(nodes: seq<Node>, path: seq<Str>, at: map<Str, nat>, ps: seq<Str>, src: nat, dst: nat, t: int,
      b: nat)
    requires Trie(nodes, path, at, ps) && Proper(ps) && src < |path| && path[src] != []
             && LinksUpTo(nodes, path, at, ps, |path[src]|)
    requires dst < |path| && path[dst] == path[src] + [nodes[dst].sym]
    requires var x, c := LinkOf(ps, path[src]), nodes[dst].sym;
             if Finds(ps, x, c) then 0 <= t < |path| && path[t] == FirstWith(ps, x, c) && b < |path|
                 && path[b] == FirstWith(ps, x, c) + [c]
             else t == NULL && b == 0
    ensures path[if nodes[dst].child != 0 then b else if t != NULL then t else 0] == LinkOf(ps, path[dst])
    ensures b < |path| && path[b] == SuffixNode(ps, path[dst])
    ensures nodes[b].matched != 0 || nodes[b].isSuffix <==> SuffixFlag(ps, path[dst])
  {
    KidIs(path[src], nodes[dst].sym, path[src], nodes[dst].sym);
    ChildIffState(nodes, path, at, ps, dst);
    assert LinkSet(nodes, path, at, ps, b);
  }

  /** One child of src gets its link and flag. */
  method LinkKid(tr: Tree, src: nat, dst: nat, ghost ps: seq<Str>)
    requires Trie(tr.nodes, tr.path, tr.at, ps) && Proper(ps) && src < |tr.path| && tr.path[src] != []
    requires LinksUpTo(tr.nodes, tr.path, tr.at, ps, |tr.path[src]|)
    requires dst < |tr.path| && tr.path[dst] == tr.path[src] + [tr.nodes[dst].sym]
    modifies tr`nodes
    ensures SameShape(old(tr.nodes), tr.nodes) && LinkSet(tr.nodes, tr.path, tr.at, ps, dst)
    ensures forall i | 0 <= i < |tr.nodes| && i != dst :: tr.nodes[i] == old(tr.nodes)[i]
  {
    var t, b := SearchChain(tr.nodes, src, tr.nodes[dst].sym, tr.path, tr.at, ps);
    FoundIsLink(tr.nodes, tr.path, tr.at, ps, src, dst, t, b);
    var back := if tr.nodes[dst].child != 0 then b else if t != NULL then t else 0;
    var flag := tr.nodes[b].matched != 0 || tr.nodes[b].isSuffix;
    tr.nodes := tr.nodes[dst := tr.nodes[dst].(back := back, isSuffix := flag)];
  }

  /** Every kid of src with a symbol below `below` has its link, and those with kids are in v. */
  ghost predicate KidsDone(nodes: seq<Node>, path: seq<Str>, at: map<Str, nat>, ps: seq<Str>, p: Str, below: nat,
      v: seq<nat>) {
    && |path| <= |nodes|
    && forall i {:trigger LinkSet(nodes, path, at, ps, i)} | 0 <= i < |path| && path[i] != [] && Parent(path[i]) == p
        && Last(path[i]) < below ::
         LinkSet(nodes, path, at, ps, i) && (nodes[i].child != 0 ==> i in v)
  }

  /** The members of v are nodes of depth d. */
  ghost predicate AtDepth(path: seq<Str>, v: seq<nat>, d: nat) {
    forall k | 0 <= k < |v| :: v[k] < |path| && |path[v[k]]| == d
  }

  /** Links already right stay right when only one node that had none changes. */
  lemma LinksKept(nodes: seq<Node>, nodes': seq<Node>, path: seq<Str>, at: map<Str, nat>, ps: seq<Str>, d: nat,
      dst: nat)
    requires LinksUpTo(nodes, path, at, ps, d) && |nodes'| == |nodes| && dst < |path| && |path[dst]| > d
    requires forall i | 0 <= i < |nodes| && i != dst :: nodes'[i] == nodes[i]
    ensures LinksUpTo(nodes', path, at, ps, d)
  {
    forall i {:trigger LinkSet(nodes', path, at, ps, i)} | 0 <= i < |path| && |path[i]| <= d
      ensures LinkSet(nodes', path, at, ps, i)
    {
      assert LinkSet(nodes, path, at, ps, i);
    }
  }

  lemma KidsDoneGrows(nodes: seq<Node>, nodes': seq<Node>, path: seq<Str>, at: map<Str, nat>, ps: seq<Str>, p: Str,
      below: nat, v: seq<nat>, dst: nat)
    requires KidsDone(nodes, path, at, ps, p, below, v) && SameShape(nodes, nodes') && Linked(nodes, path, at)
    requires 0 < dst < |path| && path[dst] == p + [nodes[dst].sym] && below <= nodes[dst].sym
    requires forall c | below <= c < nodes[dst].sym :: !HasKid(at, p, c)
    requires forall i | 0 <= i < |nodes| && i != dst :: nodes'[i] == nodes[i]
    requires LinkSet(nodes', path, at, ps, dst)
    ensures KidsDone(nodes', path, at, ps, p, nodes[dst].sym + 1, if nodes[dst].child != 0 then v + [dst] else v)
  {
    forall i {:trigger LinkSet(nodes', path, at, ps, i)}
      | 0 <= i < |path| && path[i] != [] && Parent(path[i]) == p && Last(path[i]) < nodes[dst].sym + 1
      ensures LinkSet(nodes', path, at, ps, i)
              && (nodes'[i].child != 0 ==> i in if nodes[dst].child != 0 then v + [dst] else v)
    {
      KidOfParent(path[i]);
      KidIs(p, nodes[dst].sym, p, Last(path[i]));
      assert HasKid(at, p, Last(path[i]));
      if i != dst {
        assert path[i] != path[dst];
        assert LinkSet(nodes, path, at, ps, i);
      }
    }
  }

  /** Every kid of p has its link, and those with kids are in v. */
  ghost predicate AllKidsDone(nodes: seq<Node>, path: seq<Str>, at: map<Str, nat>, ps: seq<Str>, p: Str, v: seq<nat>) {
    && |path| <= |nodes|
    && forall i {:trigger LinkSet(nodes, path, at, ps, i)} | 0 <= i < |path| && path[i] != [] && Parent(path[i]) == p ::
         LinkSet(nodes, path, at, ps, i) && (nodes[i].child != 0 ==> i in v)
  }

  lemma NoKidsLeft(nodes: seq<Node>, path: seq<Str>, at: map<Str, nat>, ps: seq<Str>, p: Str, low: nat, v: seq<nat>)
    requires KidsDone(nodes, path, at, ps, p, low, v) && Names(path, at) && FirstFrom(nodes, path, at, p, low, 0)
    ensures AllKidsDone(nodes, path, at, ps, p, v)
  {
    forall i {:trigger LinkSet(nodes, path, at, ps, i)} | 0 <= i < |path| && path[i] != [] && Parent(path[i]) == p
      ensures LinkSet(nodes, path, at, ps, i) && (nodes[i].child != 0 ==> i in v)
    {
      KidOfParent(path[i]);
      assert HasKid(at, p, Last(path[i]));
    }
  }

  /** Only kids of p changed. */
  ghost predicate OnlyKids(nodes: seq<Node>, nodes': seq<Node>, path: seq<Str>, p: Str) {
    && |path| <= |nodes| == |nodes'|
    && forall i | 0 <= i < |path| :: (path[i] != [] && Parent(path[i]) == p) || nodes'[i] == nodes[i]
  }

  /** Amid the children of src: those before dst are done. */
  ghost predicate Linking(nodes: seq<Node>, path: seq<Str>, at: map<Str, nat>, ps: seq<Str>, p: Str, low: nat, dst: nat,
      v: seq<nat>) {
    && Trie(nodes, path, at, ps)
    && LinksUpTo(nodes, path, at, ps, |p|)
    && FirstFrom(nodes, path, at, p, low, dst)
    && KidsDone(nodes, path, at, ps, p, low, v)
    && AtDepth(path, v, |p| + 1)
  }

  /** One turn of the loop over the children of src. */
  method LinkNext(tr: Tree, src: nat, dst: nat, v: seq<nat>, ghost low: nat, ghost ps: seq<Str>) returns (v': seq<nat>)
    requires src < |tr.path| && tr.path[src] != [] && Proper(ps) && dst != 0
    requires Linking(tr.nodes, tr.path, tr.at, ps, tr.path[src], low, dst, v)
    modifies tr`nodes
    ensures SameShape(old(tr.nodes), tr.nodes) && OnlyKids(old(tr.nodes), tr.nodes, tr.path, tr.path[src]) && v <= v'
    ensures dst < |tr.path| && low <= tr.nodes[dst].sym
    ensures Linking(tr.nodes, tr.path, tr.at, ps, tr.path[src], tr.nodes[dst].sym + 1, tr.nodes[dst].next, v')
  {
    ghost var was, p := tr.nodes, tr.path[src];
    KidIs(p, was[dst].sym, p, was[dst].sym);
    LinkKid(tr, src, dst, ps);
    v' := if tr.nodes[dst].child != 0 then v + [dst] else v;
    TrieKept(was, tr.nodes, tr.path, tr.at, ps);
    LinksKept(was, tr.nodes, tr.path, tr.at, ps, |p|, dst);
    KidsDoneGrows(was, tr.nodes, tr.path, tr.at, ps, p, low, v, dst);
    NextOf(tr.nodes, tr.path, tr.at, dst, p);
  }

  /** The inner loops for one source node: link all its children, and queue those with children. */
  method LinkKids(tr: Tree, src: nat, v: seq<nat>, ghost ps: seq<Str>) returns (v': seq<nat>)
    requires src < |tr.path| && tr.path[src] != [] && Proper(ps)
    requires Trie(tr.nodes, tr.path, tr.at, ps) && LinksUpTo(tr.nodes, tr.path, tr.at, ps, |tr.path[src]|)
    requires AtDepth(tr.path, v, |tr.path[src]| + 1)
    modifies tr`nodes
    ensures SameShape(old(tr.nodes), tr.nodes) && OnlyKids(old(tr.nodes), tr.nodes, tr.path, tr.path[src])
    ensures v <= v' && AtDepth(tr.path, v', |tr.path[src]| + 1)
    ensures Trie(tr.nodes, tr.path, tr.at, ps) && LinksUpTo(tr.nodes, tr.path, tr.at, ps, |tr.path[src]|)
    ensures AllKidsDone(tr.nodes, tr.path, tr.at, ps, tr.path[src], v')
  {
    v' := v;
    ghost var low: nat, bound := 0, HighestSym(tr.nodes);
    FirstOf(tr.nodes, tr.path, tr.at, src);
    var dst: nat := tr.nodes[src].child;
    while dst != 0
      invariant SameShape(old(tr.nodes), tr.nodes) && OnlyKids(old(tr.nodes), tr.nodes, tr.path, tr.path[src])
                && v <= v'
      invariant Linking(tr.nodes, tr.path, tr.at, ps, tr.path[src], low, dst, v')
      invariant low <= bound + 1
      decreases bound + 1 - low
    {
      v' := LinkNext(tr, src, dst, v', low, ps);
      low, dst := tr.nodes[dst].sym + 1, tr.nodes[dst].next;
    }
    NoKidsLeft(tr.nodes, tr.path, tr.at, ps, tr.path[src], low, v');
  }

  /** A bound for the symbols in the tree. */
  ghost function HighestSym(nodes: seq<Node>): (b: nat)
    ensures forall i | 0 <= i < |nodes| :: nodes[i].sym <= b
  {
    if nodes == [] then 0
    else
      var b := HighestSym(nodes[..|nodes| - 1]);
      assert forall i | 0 <= i < |nodes| - 1 :: nodes[i] == nodes[..|nodes| - 1][i];
      if b > nodes[|nodes| - 1].sym then b else nodes[|nodes| - 1].sym
  }

  // ---- Level by level ---------------------------------------------------------------------------

  /** Every node of depth d that has children is in v. */
  ghost predicate Complete(nodes: seq<Node>, path: seq<Str>, v: seq<nat>, d: nat) {
    && |path| <= |nodes|
    && forall i | 0 <= i < |path| && |path[i]| == d && nodes[i].child != 0 :: i in v
  }

  /** The children of the first k sources are done. */
  ghost predicate SourcesDone(nodes: seq<Node>, path: seq<Str>, at: map<Str, nat>, ps: seq<Str>, v1: seq<nat>, k: nat,
      v2: seq<nat>) {
    && k <= |v1|
    && forall j | 0 <= j < k :: v1[j] < |path| && AllKidsDone(nodes, path, at, ps, path[v1[j]], v2)
  }

  lemma KidsStillDone(nodes: seq<Node>, nodes': seq<Node>, path: seq<Str>, at: map<Str, nat>, ps: seq<Str>, p: Str,
      q: Str, v: seq<nat>, v': seq<nat>)
    requires AllKidsDone(nodes, path, at, ps, q, v) && AllKidsDone(nodes', path, at, ps, p, v')
    requires OnlyKids(nodes, nodes', path, p) && v <= v'
    ensures AllKidsDone(nodes', path, at, ps, q, v')
  {
    if p != q {
      forall i {:trigger LinkSet(nodes', path, at, ps, i)} | 0 <= i < |path| && path[i] != [] && Parent(path[i]) == q
        ensures LinkSet(nodes', path, at, ps, i) && (nodes'[i].child != 0 ==> i in v')
      {
        assert LinkSet(nodes, path, at, ps, i);
      }
    }
  }

  /** When all sources of a level are done, the next level has its links and its queue. */
  lemma NextLevel(nodes: seq<Node>, path: seq<Str>, at: map<Str, nat>, ps: seq<Str>, v1: seq<nat>, v2: seq<nat>, d: nat)
    requires Trie(nodes, path, at, ps) && LinksUpTo(nodes, path, at, ps, d) && d > 0
    requires Complete(nodes, path, v1, d) && SourcesDone(nodes, path, at, ps, v1, |v1|, v2)
    ensures LinksUpTo(nodes, path, at, ps, d + 1) && Complete(nodes, path, v2, d + 1)
  {
    forall i {:trigger LinkSet(nodes, path, at, ps, i)} | 0 <= i < |path| && |path[i]| <= d + 1
      ensures LinkSet(nodes, path, at, ps, i)
    {
      if |path[i]| == d + 1 {
        SourceOf(nodes, path, at, ps, v1, i);
      }
    }
    forall i | 0 <= i < |path| && |path[i]| == d + 1 && nodes[i].child != 0 ensures i in v2 {
      SourceOf(nodes, path, at, ps, v1, i);
      assert LinkSet(nodes, path, at, ps, i);
    }
  }

  lemma SourceOf(nodes: seq<Node>, path: seq<Str>, at: map<Str, nat>, ps: seq<Str>, v1: seq<nat>, i: nat)
    requires Trie(nodes, path, at, ps) && i < |path| && |path[i]| > 1 && Complete(nodes, path, v1, |path[i]| - 1)
    ensures exists j :: 0 <= j < |v1| && v1[j] < |path| && path[v1[j]] == Parent(path[i])
  {
    var p := Parent(path[i]);
    assert IsNode(ps, path[i]);
    ParentIsState(ps, path[i]);
    StateIsNode(ps, p);
    assert p in at;
    ChildIffState(nodes, path, at, ps, at[p]);
  }

  /** One level: link the children of every source, and queue the next level's sources. */
  method LinkLevel(tr: Tree, v1: seq<nat>, ghost d: nat, ghost ps: seq<Str>) returns (v2: seq<nat>)
    requires Proper(ps) && d > 0 && Trie(tr.nodes, tr.path, tr.at, ps) && LinksUpTo(tr.nodes, tr.path, tr.at, ps, d)
    requires AtDepth(tr.path, v1, d) && Complete(tr.nodes, tr.path, v1, d)
    modifies tr`nodes
    ensures SameShape(old(tr.nodes), tr.nodes) && Trie(tr.nodes, tr.path, tr.at, ps)
    ensures LinksUpTo(tr.nodes, tr.path, tr.at, ps, d + 1)
    ensures AtDepth(tr.path, v2, d + 1) && Complete(tr.nodes, tr.path, v2, d + 1)
  {
    v2 := [];
    for k := 0 to |v1|
      invariant SameShape(old(tr.nodes), tr.nodes) && Trie(tr.nodes, tr.path, tr.at, ps)
      invariant LinksUpTo(tr.nodes, tr.path, tr.at, ps, d) && AtDepth(tr.path, v2, d + 1)
      invariant SourcesDone(tr.nodes, tr.path, tr.at, ps, v1, k, v2)
    {
      v2 := LinkSource(tr, v1, k, v2, d, ps);
    }
    NextLevel(tr.nodes, tr.path, tr.at, ps, v1, v2, d);
  }

  method LinkSource(tr: Tree, v1: seq<nat>, k: nat, v2: seq<nat>, ghost d: nat, ghost ps: seq<Str>)
    returns (v2': seq<nat>)
    requires Proper(ps) && d > 0 && Trie(tr.nodes, tr.path, tr.at, ps) && LinksUpTo(tr.nodes, tr.path, tr.at, ps, d)
    requires AtDepth(tr.path, v1, d) && AtDepth(tr.path, v2, d + 1) && k < |v1|
    requires SourcesDone(tr.nodes, tr.path, tr.at, ps, v1, k, v2)
    modifies tr`nodes
    ensures SameShape(old(tr.nodes), tr.nodes) && Trie(tr.nodes, tr.path, tr.at, ps)
    ensures LinksUpTo(tr.nodes, tr.path, tr.at, ps, d) && AtDepth(tr.path, v2', d + 1)
    ensures SourcesDone(tr.nodes, tr.path, tr.at, ps, v1, k + 1, v2')
  {
    v2' := LinkKids(tr, v1[k], v2, ps);
    forall j | 0 <= j <= k ensures AllKidsDone(tr.nodes, tr.path, tr.at, ps, tr.path[v1[j]], v2') {
      if j < k {
        KidsStillDone(old(tr.nodes), tr.nodes, tr.path, tr.at, ps, tr.path[v1[k]], tr.path[v1[j]], v2, v2');
      }
    }
  }

  /** The children of the root, the first level. */
  method RootKids(nodes: seq<Node>, ghost path: seq<Str>, ghost at: map<Str, nat>) returns (v: seq<nat>)
    requires Linked(nodes, path, at)
    ensures AtDepth(path, v, 1) && Complete(nodes, path, v, 1)
  {
    v := [];
    ghost var low: nat, bound := 0, HighestSym(nodes);
    ghost var root: Str := [];
    FirstOf(nodes, path, at, 0);
    var k := nodes[0].child;
    while k != 0
      invariant FirstFrom(nodes, path, at, root, low, k) && AtDepth(path, v, 1) && low <= bound + 1
      invariant forall i | 0 <= i < |path| && |path[i]| == 1 && path[i][0] < low :: i in v
      decreases bound + 1 - low
    {
      KidListed(nodes, path, at, low, k);
      v := v + [k];
      NextOf(nodes, path, at, k, root);
      low, k := nodes[k].sym + 1, nodes[k].next;
    }
    forall i | 0 <= i < |path| && |path[i]| == 1 ensures path[i][0] < low {
      assert path[i] == root + [path[i][0]];
      assert HasKid(at, root, path[i][0]);
    }
  }

  lemma KidListed(nodes: seq<Node>, path: seq<Str>, at: map<Str, nat>, low: nat, k: nat)
    requires Linked(nodes, path, at) && k != 0 && FirstFrom(nodes, path, at, [], low, k)
    ensures |path[k]| == 1
    ensures forall i | 0 <= i < |path| && |path[i]| == 1 && low <= path[i][0] <= nodes[k].sym :: i == k
  {
    forall i | 0 <= i < |path| && |path[i]| == 1 && low <= path[i][0] <= nodes[k].sym ensures i == k {
      assert path[i] == [] + [path[i][0]];
      assert HasKid(at, [], path[i][0]);
    }
  }

  ghost function Deepest(path: seq<Str>): (d: nat)
    ensures forall i | 0 <= i < |path| :: |path[i]| <= d
  {
    if path == [] then 0
    else
      var d := Deepest(path[..|path| - 1]);
      assert forall i | 0 <= i < |path| - 1 :: path[i] == path[..|path| - 1][i];
      if d > |path[|path| - 1]| then d else |path[|path| - 1]|
  }

  /** A level without sources is the last one. */
  lemma {:induction false} NothingDeeper(nodes: seq<Node>, path: seq<Str>, at: map<Str, nat>, ps: seq<Str>, d: nat,
      i: nat)
    requires Trie(nodes, path, at, ps) && Complete(nodes, path, [], d) && d > 0 && i < |path|
    ensures |path[i]| <= d
    decreases if i < |path| then |path[i]| else 0
  {
    if |path[i]| > d {
      assert IsNode(ps, path[i]);
      ParentIsState(ps, path[i]);
      StateIsNode(ps, Parent(path[i]));
      var j := at[Parent(path[i])];
      ChildIffState(nodes, path, at, ps, j);
      NothingDeeper(nodes, path, at, ps, d, j);
    }
  }

  /** add_backlinks: every node gets its link and its suffix flag, and nothing else changes. */
  method AddBacklinks(tr: Tree, ghost ps: seq<Str>)
    requires tr.Holds(ps, [], 0) && Proper(ps)
    modifies tr`nodes
    ensures SameShape(old(tr.nodes), tr.nodes) && Trie(tr.nodes, tr.path, tr.at, ps)
    ensures forall i {:trigger LinkSet(tr.nodes, tr.path, tr.at, ps, i)} | 0 <= i < |tr.path| ::
            LinkSet(tr.nodes, tr.path, tr.at, ps, i)
  {
    FirstLevel(tr.nodes, tr.path, tr.at, ps);
    var v1 := RootKids(tr.nodes, tr.path, tr.at);
    ghost var d: nat := 1;
    while v1 != []
      invariant SameShape(old(tr.nodes), tr.nodes) && Trie(tr.nodes, tr.path, tr.at, ps)
      invariant d > 0 && LinksUpTo(tr.nodes, tr.path, tr.at, ps, d)
      invariant AtDepth(tr.path, v1, d) && Complete(tr.nodes, tr.path, v1, d)
      decreases Deepest(tr.path) + 1 - d
    {
      assert |tr.path[v1[0]]| == d;
      v1 := LinkLevel(tr, v1, d, ps);
      d := d + 1;
    }
    forall i {:trigger LinkSet(tr.nodes, tr.path, tr.at, ps, i)} | 0 <= i < |tr.path|
      ensures LinkSet(tr.nodes, tr.path, tr.at, ps, i)
    {
      NothingDeeper(tr.nodes, tr.path, tr.at, ps, d, i);
    }
  }

  /** create_tree left the root and its children as they are to be. */
  lemma FirstLevel(nodes: seq<Node>, path: seq<Str>, at: map<Str, nat>, ps: seq<Str>)
    requires Grown(nodes, path, at, ps, [])
    ensures Trie(nodes, path, at, ps) && LinksUpTo(nodes, path, at, ps, 1)
  {
    forall i {:trigger LinkSet(nodes, path, at, ps, i)} | 0 <= i < |path| && |path[i]| <= 1
      ensures LinkSet(nodes, path, at, ps, i)
    {
      assert path[i] == [] <==> i == 0;
      assert at[path[0]] == 0;
    }
  }
}
