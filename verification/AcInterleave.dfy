// The breadth-first run of interleave in contrib/aho-corasick/acism_create.c.
module AcInterleave {
  import opened AcSpec
  import opened AcTrie
  import opened AcLinks
  import opened AcPack

  /** Links to the root were dropped at the nodes that have a base; nothing else but state numbers changed. */
  ghost predicate Numbering(nodes: seq<Node>, nodes': seq<Node>, placed: set<nat>) {
    && |nodes| == |nodes'|
    && forall i | 0 <= i < |nodes| ::
         && (i !in placed ==> nodes'[i] == nodes[i])
         && nodes'[i]
             == nodes[i].(state := nodes'[i].state, back := if i in placed
                 && nodes[i].back == 0 then NULL else nodes[i].back)
  }

  ghost predicate NoRepeats(v: seq<nat>) {
    forall j, k | 0 <= j < k < |v| :: v[j] != v[k]
  }

  /** The first k nodes of the level are done: placed if they have kids, and their kids are queued. */
  ghost predicate Halfway(nodes: seq<Node>, path: seq<Str>, v1: seq<nat>, k: nat, v2: seq<nat>, d: nat,
      placed: set<nat>) {
    && |path| <= |nodes| && k <= |v1| && NoRepeats(v1) && AtDepth(path, v1, d)
    && NoRepeats(v2) && AtDepth(path, v2, d + 1)
    && (forall j | 0 <= j < k :: nodes[v1[j]].child != 0 ==> v1[j] in placed)
    && (forall j | 0 <= j < k :: KidsIn(nodes, path, v1[j], v2))
    && (forall i | i in placed :: i < |path| && nodes[i].child != 0 && (|path[i]| < d || i in v1[..k]))
    && (forall j | 0 <= j < |v2| :: path[v2[j]] != [] && exists m :: 0 <= m < k && path[v1[m]] == Parent(path[v2[j]]))
  }

  ghost predicate KidsIn(nodes: seq<Node>, path: seq<Str>, i: nat, v: seq<nat>) {
    i < |path| ==> forall a: nat {:trigger IsKid(path, path[i], a)} | IsKid(path, path[i], a) :: a in v
  }

  /** A leaf of the level is passed over. */
  lemma LeafPassed(nodes: seq<Node>, path: seq<Str>, at: map<Str, nat>, v1: seq<nat>, k: nat, v2: seq<nat>, d: nat,
      placed: set<nat>)
    requires Linked(nodes, path, at) && Halfway(nodes, path, v1, k, v2, d, placed) && k < |v1|
             && nodes[v1[k]].child == 0
    ensures Halfway(nodes, path, v1, k + 1, v2, d, placed)
  {
    FirstOf(nodes, path, at, v1[k]);
    NoKidFrom(nodes, path, at, path[v1[k]], 0);
  }

  /** A state of the level is placed and its kids are queued. */
  lemma StatePassed(nodes: seq<Node>, nodes': seq<Node>, path: seq<Str>, at: map<Str, nat>, v1: seq<nat>, k: nat,
      v2: seq<nat>, v2': seq<nat>, d: nat, placed: set<nat>, nsyms: nat)
    requires Linked(nodes, path, at) && Halfway(nodes, path, v1, k, v2, d, placed) && k < |v1|
             && nodes[v1[k]].child != 0
    requires |nodes'| == |nodes| && forall i | 0 <= i < |nodes| ::
             nodes'[i].child == nodes[i].child && nodes'[i].sym == nodes[i].sym
    requires KidsQueued(nodes, path, path[v1[k]], nsyms, v2, v2')
    requires forall a | 0 <= a < |path| :: nodes[a].sym < nsyms
    ensures Halfway(nodes', path, v1, k + 1, v2', d, placed + {v1[k]})
  {
    var i := v1[k];
    assert v1[..k + 1] == v1[..k] + [i];
    forall j | |v2| <= j < |v2'| ensures |path[v2'[j]]| == d + 1 && v2'[j] !in v2 {
      assert IsKid(path, path[i], v2'[j]);
      NotQueuedBefore(nodes, path, at, v1, k, v2, d, placed, v2'[j]);
    }
    forall j | 0 <= j < k ensures KidsIn(nodes', path, v1[j], v2') {
      assert KidsIn(nodes, path, v1[j], v2);
    }
    assert KidsIn(nodes', path, i, v2');
    QueueDistinct(v2, v2');
  }

  lemma QueueDistinct(v: seq<nat>, v': seq<nat>)
    requires v <= v' && NoRepeats(v) && (forall j, k | |v| <= j < k < |v'| :: v'[j] != v'[k])
    requires forall j | |v| <= j < |v'| :: v'[j] !in v
    ensures NoRepeats(v')
  {
    forall j, k | 0 <= j < k < |v'| ensures v'[j] != v'[k] {
      if j < |v| {
        assert v'[j] == v[j];
      }
    }
  }

  lemma NotQueuedBefore(nodes: seq<Node>, path: seq<Str>, at: map<Str, nat>, v1: seq<nat>, k: nat, v2: seq<nat>, d: nat,
      placed: set<nat>, a: nat)
    requires Linked(nodes, path, at) && Halfway(nodes, path, v1, k, v2, d, placed) && k < |v1|
             && IsKid(path, path[v1[k]], a)
    ensures |path[a]| == d + 1 && a !in v2
  {
  }

  /** The turn of node v1[k]. */
  method PackNext(tr: Tree, v1: seq<nat>, k: nat, v2: seq<nat>, usev: seq<Use>, startv: seq<nat>, last: nat, nsyms: nat,
    ghost nodes0: seq<Node>, ghost d: nat, ghost placed: set<nat>)
    returns (v2': seq<nat>, usev': seq<Use>, startv': seq<nat>, last': nat, ghost placed': set<nat>)
    requires Packing(tr.nodes, tr.path, tr.at, usev, startv, last, nsyms, placed)
             && Numbering(nodes0, tr.nodes, placed) && Tight(last, nsyms, placed)
    requires Halfway(tr.nodes, tr.path, v1, k, v2, d, placed) && k < |v1| && tr.nodes[0].state == 0
    requires d == 0 ==> last == 0 && usev[0] == Use(false, false)
    modifies tr`nodes
    ensures Packing(tr.nodes, tr.path, tr.at, usev', startv', last', nsyms, placed')
            && Numbering(nodes0, tr.nodes, placed') && Tight(last', nsyms, placed')
    ensures Halfway(tr.nodes, tr.path, v1, k + 1, v2', d, placed') && tr.nodes[0].state == 0 && placed <= placed'
  {
    if tr.nodes[v1[k]].child == 0 {
      v2', usev', startv', last', placed' := v2, usev, startv, last, placed;
      LeafPassed(tr.nodes, tr.path, tr.at, v1, k, v2, d, placed);
    } else {
      v2', usev', startv', last', placed' := PackState(tr, v1, k, v2, usev, startv, last, nsyms, nodes0, d, placed);
    }
  }

  method PackState(tr: Tree, v1: seq<nat>, k: nat, v2: seq<nat>, usev: seq<Use>, startv: seq<nat>, last: nat,
      nsyms: nat,
    ghost nodes0: seq<Node>, ghost d: nat, ghost placed: set<nat>)
    returns (v2': seq<nat>, usev': seq<Use>, startv': seq<nat>, last': nat, ghost placed': set<nat>)
    requires Packing(tr.nodes, tr.path, tr.at, usev, startv, last, nsyms, placed)
             && Numbering(nodes0, tr.nodes, placed) && Tight(last, nsyms, placed)
    requires Halfway(tr.nodes, tr.path, v1, k, v2, d, placed) && k < |v1| && tr.nodes[0].state == 0
    requires d == 0 ==> last == 0 && usev[0] == Use(false, false)
    requires tr.nodes[v1[k]].child != 0
    modifies tr`nodes
    ensures Packing(tr.nodes, tr.path, tr.at, usev', startv', last', nsyms, placed')
            && Numbering(nodes0, tr.nodes, placed') && Tight(last', nsyms, placed')
    ensures Halfway(tr.nodes, tr.path, v1, k + 1, v2', d, placed') && tr.nodes[0].state == 0 && placed <= placed'
  {
    ghost var was := tr.nodes;
    NotPlacedYet(was, tr.path, v1, k, v2, d, placed);
    RootState(tr.path, tr.at, v1[k], d);
    v2', usev', startv', last' := PlaceState(tr, v1[k], v2, usev, startv, last, nsyms, nodes0, placed);
    placed' := placed + {v1[k]};
    StatePassed(was, tr.nodes, tr.path, tr.at, v1, k, v2, v2', d, placed, nsyms);
  }

  /** A state loses its link to the root, if that is where it leads, and gets its base. */
  method PlaceState(tr: Tree, i: nat, v2: seq<nat>, usev: seq<Use>, startv: seq<nat>, last: nat, nsyms: nat,
      ghost nodes0: seq<Node>, ghost placed: set<nat>)
    returns (v2': seq<nat>, usev': seq<Use>, startv': seq<nat>, last': nat)
    requires Packing(tr.nodes, tr.path, tr.at, usev, startv, last, nsyms, placed)
             && Numbering(nodes0, tr.nodes, placed) && Tight(last, nsyms, placed)
    requires i < |tr.path| && i !in placed && tr.nodes[i].child != 0 && tr.nodes[0].state == 0
    requires i == 0 ==> last == 0 && usev[0] == Use(false, false)
    modifies tr`nodes
    ensures Packing(tr.nodes, tr.path, tr.at, usev', startv', last', nsyms, placed + {i})
            && Numbering(nodes0, tr.nodes, placed + {i})
    ensures Tight(last', nsyms, placed + {i}) && tr.nodes[0].state == 0
    ensures |tr.nodes| == |old(tr.nodes)| && forall j | 0 <= j < |tr.nodes| ::
            tr.nodes[j].child == old(tr.nodes)[j].child && tr.nodes[j].sym == old(tr.nodes)[j].sym
    ensures KidsQueued(old(tr.nodes), tr.path, tr.path[i], nsyms, v2, v2')
  {
    ghost var was := tr.nodes;
    SimplifyBack(tr, i, usev, startv, last, nsyms, placed);
    usev', startv', last', v2' := PlaceNode(tr, i, usev, startv, last, nsyms, v2, placed);
    TightMore(last, last', nsyms, placed, i);
    SameQueue(tr.nodes, was, tr.path, tr.path[i], nsyms, v2, v2');
  }

  lemma NotPlacedYet(nodes: seq<Node>, path: seq<Str>, v1: seq<nat>, k: nat, v2: seq<nat>, d: nat, placed: set<nat>)
    requires Halfway(nodes, path, v1, k, v2, d, placed) && k < |v1|
    ensures v1[k] !in placed
  {
  }

  lemma RootState(path: seq<Str>, at: map<Str, nat>, i: nat, d: nat)
    requires Names(path, at) && i < |path| && |path[i]| == d
    ensures i == 0 <==> d == 0
  {
    assert d == 0 ==> path[i] == path[0];
  }

  lemma SameQueue(nodes: seq<Node>, nodes': seq<Node>, path: seq<Str>, p: Str, nsyms: nat, v: seq<nat>, v': seq<nat>)
    requires |path| <= |nodes| == |nodes'| && KidsQueued(nodes, path, p, nsyms, v, v')
    requires forall i | 0 <= i < |nodes| :: nodes'[i].sym == nodes[i].sym
    ensures KidsQueued(nodes', path, p, nsyms, v, v')
  {
  }

  /** Every node of depth d is in v. */
  ghost predicate LevelFull(path: seq<Str>, v: seq<nat>, d: nat) {
    forall i | 0 <= i < |path| && |path[i]| == d :: i in v
  }

  /** Every state of less depth has its base. */
  ghost predicate AllAbove(nodes: seq<Node>, path: seq<Str>, placed: set<nat>, d: nat) {
    |path| <= |nodes| && forall i | 0 <= i < |path| && |path[i]| < d && nodes[i].child != 0 :: i in placed
  }

  lemma LevelDone(nodes: seq<Node>, path: seq<Str>, at: map<Str, nat>, ps: seq<Str>, v1: seq<nat>, v2: seq<nat>, d: nat,
      placed: set<nat>)
    requires Trie(nodes, path, at, ps) && Halfway(nodes, path, v1, |v1|, v2, d, placed)
    requires LevelFull(path, v1, d) && AllAbove(nodes, path, placed, d)
    ensures Halfway(nodes, path, v2, 0, [], d + 1, placed)
    ensures LevelFull(path, v2, d + 1) && AllAbove(nodes, path, placed, d + 1)
  {
    forall i | 0 <= i < |path| && |path[i]| == d + 1 ensures i in v2 {
      var p := Parent(path[i]);
      TrieClosed(nodes, path, at, ps, path[i]);
      assert at[p] in v1;
      assert KidsIn(nodes, path, at[p], v2);
      assert IsKid(path, p, i);
    }
  }

  lemma TrieClosed(nodes: seq<Node>, path: seq<Str>, at: map<Str, nat>, ps: seq<Str>, s: Str)
    requires Trie(nodes, path, at, ps) && s in at && s != []
    ensures Parent(s) in at
  {
    var i :| 0 <= i < |ps| && s <= ps[i];
    assert Parent(s) <= ps[i];
    assert Known(ps, Parent(s));
  }

  lemma NumberedTrie(nodes0: seq<Node>, nodes: seq<Node>, path: seq<Str>, at: map<Str, nat>, ps: seq<Str>,
      placed: set<nat>)
    requires Trie(nodes0, path, at, ps) && Numbering(nodes0, nodes, placed)
    ensures Trie(nodes, path, at, ps)
  {
    SameLinks(nodes0, nodes, path, at);
  }

  /** One level of the tree. */
  method PackLevel(tr: Tree, v1: seq<nat>, usev: seq<Use>, startv: seq<nat>, last: nat, nsyms: nat,
    ghost nodes0: seq<Node>, ghost d: nat, ghost placed: set<nat>)
    returns (v2: seq<nat>, usev': seq<Use>, startv': seq<nat>, last': nat, ghost placed': set<nat>)
    requires Packing(tr.nodes, tr.path, tr.at, usev, startv, last, nsyms, placed)
             && Numbering(nodes0, tr.nodes, placed) && Tight(last, nsyms, placed)
    requires Halfway(tr.nodes, tr.path, v1, 0, [], d, placed) && tr.nodes[0].state == 0
    requires d == 0 ==> |v1| <= 1 && last == 0 && usev[0] == Use(false, false)
    modifies tr`nodes
    ensures Packing(tr.nodes, tr.path, tr.at, usev', startv', last', nsyms, placed')
            && Numbering(nodes0, tr.nodes, placed') && Tight(last', nsyms, placed')
    ensures Halfway(tr.nodes, tr.path, v1, |v1|, v2, d, placed') && tr.nodes[0].state == 0 && placed <= placed'
  {
    v2, usev', startv', last', placed' := [], usev, startv, last, placed;
    for k := 0 to |v1|
      invariant Packing(tr.nodes, tr.path, tr.at, usev', startv', last', nsyms, placed')
                && Numbering(nodes0, tr.nodes, placed') && Tight(last', nsyms, placed')
      invariant Halfway(tr.nodes, tr.path, v1, k, v2, d, placed') && tr.nodes[0].state == 0 && placed <= placed'
      invariant d == 0 && k == 0 ==> last' == 0 && usev'[0] == Use(false, false)
    {
      v2, usev', startv', last', placed' := PackNext(tr, v1, k, v2, usev', startv', last', nsyms, nodes0, d, placed');
    }
  }

  /** What the tree is after interleave, as far as bases and slots go. */
  ghost predicate Packed(nodes: seq<Node>, path: seq<Str>, at: map<Str, nat>, placed: set<nat>, tranSize: nat) {
    && |path| <= |nodes| && |path| > 0 && nodes[0].state == 0
    && (forall i: nat | i < |path| :: i in placed <==> nodes[i].child != 0)
    && (forall i | i in placed :: i < |path|)
    && OverlapFree(nodes, path, at, placed)
    && tranSize > 0 && Below(nodes, path, at, placed, tranSize - 1)
  }

  /** Where the breadth-first run stands before the level v1 of depth d. */
  ghost predicate BeforeLevel(nodes0: seq<Node>, nodes: seq<Node>, path: seq<Str>, at: map<Str, nat>, ps: seq<Str>,
    usev: seq<Use>, startv: seq<nat>, last: nat, nsyms: nat, v1: seq<nat>, d: nat, placed: set<nat>)
  {
    && Trie(nodes, path, at, ps) && Numbering(nodes0, nodes, placed) && nodes[0].state == 0
    && Packing(nodes, path, at, usev, startv, last, nsyms, placed) && Tight(last, nsyms, placed)
    && Halfway(nodes, path, v1, 0, [], d, placed)
    && LevelFull(path, v1, d) && AllAbove(nodes, path, placed, d)
    && (d == 0 ==> v1 == [0] && last == 0 && usev[0] == Use(false, false))
  }

  method PackWholeLevel(tr: Tree, v1: seq<nat>, usev: seq<Use>, startv: seq<nat>, last: nat, nsyms: nat,
    ghost nodes0: seq<Node>, ghost ps: seq<Str>, ghost d: nat, ghost placed: set<nat>)
    returns (v2: seq<nat>, usev': seq<Use>, startv': seq<nat>, last': nat, ghost placed': set<nat>)
    requires BeforeLevel(nodes0, tr.nodes, tr.path, tr.at, ps, usev, startv, last, nsyms, v1, d, placed)
             && Trie(nodes0, tr.path, tr.at, ps)
    modifies tr`nodes
    ensures BeforeLevel(nodes0, tr.nodes, tr.path, tr.at, ps, usev', startv', last', nsyms, v2, d + 1, placed')
  {
    v2, usev', startv', last', placed' := PackLevel(tr, v1, usev, startv, last, nsyms, nodes0, d, placed);
    NumberedTrie(nodes0, tr.nodes, tr.path, tr.at, ps, placed');
    StillAbove(old(tr.nodes), tr.nodes, nodes0, tr.path, placed, placed', d);
    LevelDone(tr.nodes, tr.path, tr.at, ps, v1, v2, d, placed');
  }

  lemma StillAbove(nodes: seq<Node>, nodes': seq<Node>, nodes0: seq<Node>, path: seq<Str>, placed: set<nat>,
      placed': set<nat>, d: nat)
    requires AllAbove(nodes, path, placed, d) && Numbering(nodes0, nodes, placed) && Numbering(nodes0, nodes', placed')
             && placed <= placed'
    ensures AllAbove(nodes', path, placed', d)
  {
  }

  /** interleave: every state gets a base, without overlaps, and the root gets 0. */
  method Interleave(tr: Tree, nsyms: nat, ghost ps: seq<Str>) returns (tranSize: nat, ghost placed: set<nat>)
    requires Trie(tr.nodes, tr.path, tr.at, ps) && tr.nodes[0].state == 0 && nsyms > 0 && tr.nextp > 0
    requires forall a | 0 <= a < |tr.path| :: tr.nodes[a].sym < nsyms
    modifies tr`nodes
    ensures Trie(tr.nodes, tr.path, tr.at, ps) && Numbering(old(tr.nodes), tr.nodes, placed)
    ensures Packed(tr.nodes, tr.path, tr.at, placed, tranSize) && tranSize <= Room(nsyms, |tr.path|) + 1
  {
    ghost var nodes0, d: nat := tr.nodes, 0;
    var usev: seq<Use> := seq(tr.nextp + nsyms, _ => Use(false, false));
    var startv: seq<nat> := seq(2 * nsyms, _ => 0);
    var last: nat, v1: seq<nat> := 0, [0];
    placed := {};
    RunStarts(tr.nodes, tr.path, tr.at, ps, usev, startv, nsyms);
    while v1 != []
      invariant BeforeLevel(nodes0, tr.nodes, tr.path, tr.at, ps, usev, startv, last, nsyms, v1, d, placed)
      decreases Deepest(tr.path) + 1 - d
    {
      LevelNotTooDeep(nodes0, tr.nodes, tr.path, tr.at, ps, usev, startv, last, nsyms, v1, d, placed);
      v1, usev, startv, last, placed := PackWholeLevel(tr, v1, usev, startv, last, nsyms, nodes0, ps, d, placed);
      d := d + 1;
    }
    tranSize := last + 1;
    RunEnds(nodes0, tr.nodes, tr.path, tr.at, ps, usev, startv, last, nsyms, d, placed);
    TightAtMost(last, nsyms, placed, |tr.path|);
  }

  lemma LevelNotTooDeep(nodes0: seq<Node>, nodes: seq<Node>, path: seq<Str>, at: map<Str, nat>, ps: seq<Str>,
    usev: seq<Use>, startv: seq<nat>, last: nat, nsyms: nat, v1: seq<nat>, d: nat, placed: set<nat>)
    requires BeforeLevel(nodes0, nodes, path, at, ps, usev, startv, last, nsyms, v1, d, placed) && v1 != []
    ensures d <= Deepest(path)
  {
    assert |path[v1[0]]| == d;
  }

  lemma RunStarts(nodes: seq<Node>, path: seq<Str>, at: map<Str, nat>, ps: seq<Str>, usev: seq<Use>, startv: seq<nat>,
      nsyms: nat)
    requires Trie(nodes, path, at, ps) && nodes[0].state == 0 && 0 < nsyms < |usev|
    requires forall a | 0 <= a < |path| :: nodes[a].sym < nsyms
    requires forall q | 0 <= q < |usev| :: usev[q] == Use(false, false)
    requires |startv| == 2 * nsyms && forall k | 0 <= k < |startv| :: startv[k] == 0
    ensures BeforeLevel(nodes, nodes, path, at, ps, usev, startv, 0, nsyms, [0], 0, {})
  {
    RootAlone(nodes, path, at);
  }

  lemma RunEnds(nodes0: seq<Node>, nodes: seq<Node>, path: seq<Str>, at: map<Str, nat>, ps: seq<Str>,
    usev: seq<Use>, startv: seq<nat>, last: nat, nsyms: nat, d: nat, placed: set<nat>)
    requires BeforeLevel(nodes0, nodes, path, at, ps, usev, startv, last, nsyms, [], d, placed)
    ensures Packed(nodes, path, at, placed, last + 1)
  {
    AllPlaced(nodes, path, at, ps, d, placed);
  }

  lemma RootAlone(nodes: seq<Node>, path: seq<Str>, at: map<Str, nat>)
    requires Linked(nodes, path, at)
    ensures Halfway(nodes, path, [0], 0, [], 0, {}) && LevelFull(path, [0], 0) && AllAbove(nodes, path, {}, 0)
  {
    forall i | 0 <= i < |path| && |path[i]| == 0 ensures i in [0] {
      assert path[i] == path[0];
    }
  }

  lemma AllPlaced(nodes: seq<Node>, path: seq<Str>, at: map<Str, nat>, ps: seq<Str>, d: nat, placed: set<nat>)
    requires Trie(nodes, path, at, ps) && LevelFull(path, [], d) && AllAbove(nodes, path, placed, d) && d > 0
    ensures forall i: nat | i < |path| && nodes[i].child != 0 :: i in placed
  {
    forall i: nat | i < |path| && nodes[i].child != 0 ensures i in placed {
      NothingDeeper(nodes, path, at, ps, d, i);
    }
  }
}
