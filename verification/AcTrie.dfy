// create_tree of contrib/aho-corasick/acism_create.c: the trie as an array of nodes linked by
// first child and next sibling, siblings in increasing order of symbol.
module AcTrie {
  import opened AcSpec

  /** The back link of the root. */
  const NULL := -1

  /**
   * struct TNODE.  Nodes are numbered; the root is 0, which is nobody's child or sibling, so 0 as
   * `child` or `next` means there is none.  `matched` is the string number plus one, or 0.
   */
  datatype Node = Node(child: nat, next: nat, back: int, state: nat, matched: nat, sym: nat, isSuffix: bool)

  const BLANK := Node(0, 0, NULL, 0, 0, 0, false)

  function Parent(s: Str): Str
    requires s != []
  {
    s[..|s| - 1]
  }

  function Last(s: Str): nat
    requires s != []
  {
    s[|s| - 1]
  }

  predicate HasKid(at: map<Str, nat>, p: Str, c: nat) {
    p + [c] in at
  }

  /** Each node has a string of its own: path gives it, at finds it. */
  ghost predicate Names(path: seq<Str>, at: map<Str, nat>) {
    && |path| > 0 && path[0] == []
    && (forall i | 0 <= i < |path| :: path[i] in at && at[path[i]] == i)
    && (forall s | s in at :: at[s] < |path| && path[at[s]] == s)
  }

  /** k is the first child of p with a symbol from `from` on, or 0 when p has none. */
  ghost predicate FirstFrom(nodes: seq<Node>, path: seq<Str>, at: map<Str, nat>, p: Str, from: nat, k: nat)
    requires |path| <= |nodes|
  {
    if k == 0 then forall c | c >= from :: !HasKid(at, p, c)
    else
      && k < |path| && from <= nodes[k].sym && path[k] == p + [nodes[k].sym]
      && forall c | from <= c < nodes[k].sym :: !HasKid(at, p, c)
  }

  ghost predicate ChildLink(nodes: seq<Node>, path: seq<Str>, at: map<Str, nat>, i: nat)
    requires |path| <= |nodes| && i < |path|
  {
    FirstFrom(nodes, path, at, path[i], 0, nodes[i].child)
  }

  ghost predicate NextLink(nodes: seq<Node>, path: seq<Str>, at: map<Str, nat>, i: nat)
    requires |path| <= |nodes| && i < |path|
  {
    i > 0 ==>
      && path[i] != [] && nodes[i].sym == Last(path[i]) > 0
      && FirstFrom(nodes, path, at, Parent(path[i]), nodes[i].sym + 1, nodes[i].next)
  }

  /** The links of every node are right. */
  ghost predicate Linked(nodes: seq<Node>, path: seq<Str>, at: map<Str, nat>) {
    && |path| <= |nodes|
    && Names(path, at)
    && (forall i {:trigger ChildLink(nodes, path, at, i)} | 0 <= i < |path| :: ChildLink(nodes, path, at, i))
    && (forall i {:trigger NextLink(nodes, path, at, i)} | 0 <= i < |path| :: NextLink(nodes, path, at, i))
  }

  lemma KidIs(p: Str, c: nat, q: Str, d: nat)
    ensures p + [c] == q + [d] <==> p == q && c == d
    ensures Parent(p + [c]) == p && Last(p + [c]) == c
  {
    assert (p + [c])[..|p|] == p;
    assert (q + [d])[..|q|] == q;
    if p + [c] == q + [d] {
      assert (p + [c])[|p|] == c && (q + [d])[|q|] == d;
    }
  }

  /** Another node p + [c], which changes no link that does not pass it. */
  lemma FirstFromGrows(nodes: seq<Node>, nodes': seq<Node>, path: seq<Str>, at: map<Str, nat>, p: Str, c: nat, q: Str,
      from: nat, k: nat)
    requires |path| <= |nodes| == |nodes'| && FirstFrom(nodes, path, at, q, from, k)
    requires forall i | 0 <= i < |path| :: nodes'[i].sym == nodes[i].sym
    requires q == p ==> c < from || (k != 0 && nodes[k].sym < c)
    requires p + [c] !in at && |path| < |nodes|
    ensures FirstFrom(nodes', path + [p + [c]], at[p + [c] := |path|], q, from, k)
  {
    var path', at' := path + [p + [c]], at[p + [c] := |path|];
    forall d ensures HasKid(at', q, d) <==> HasKid(at, q, d) || (q == p && d == c) {
      KidIs(p, c, q, d);
    }
  }

  lemma NamesGrow(path: seq<Str>, at: map<Str, nat>, s: Str)
    requires Names(path, at) && s !in at
    ensures Names(path + [s], at[s := |path|])
  {
  }

  /** The new node as first child of t, before the others. */
  function WithFirstChild(nodes: seq<Node>, t: nat, m: nat, c: nat): seq<Node>
    requires t < m < |nodes|
  {
    nodes[m := nodes[m].(sym := c, back := 0)][t := nodes[t].(child := m)]
  }

  /** The set of nodes is closed under taking the parent. */
  ghost predicate Closed(at: map<Str, nat>) {
    forall s {:trigger HasParent(at, s)} :: HasParent(at, s)
  }

  ghost predicate HasParent(at: map<Str, nat>, s: Str) {
    s in at && s != [] ==> Parent(s) in at
  }

  lemma KidOfParent(s: Str)
    requires s != []
    ensures s == Parent(s) + [Last(s)]
  {
  }

  lemma NoKidsYet(at: map<Str, nat>, s: Str, m: nat)
    requires s !in at && Closed(at)
    ensures forall d {:trigger HasKid(at[s := m], s, d)} :: !HasKid(at[s := m], s, d)
  {
    forall d {:trigger HasKid(at[s := m], s, d)} ensures !HasKid(at[s := m], s, d) {
      KidIs(s, d, s, d);
      assert |s + [d]| == |s| + 1;
      assert HasParent(at, s + [d]);
    }
  }

  /** Links of nodes other than the new node's parent or predecessor stay right. */
  lemma OldChildLink(nodes: seq<Node>, nodes': seq<Node>, path: seq<Str>, at: map<Str, nat>, p: Str, c: nat, i: nat)
    requires Linked(nodes, path, at) && |path| < |nodes| == |nodes'| && p + [c] !in at && i < |path| && path[i] != p
    requires forall k | 0 <= k < |path| :: nodes'[k].sym == nodes[k].sym
    requires nodes'[i].child == nodes[i].child
    ensures ChildLink(nodes', path + [p + [c]], at[p + [c] := |path|], i)
  {
    assert ChildLink(nodes, path, at, i);
    FirstFromGrows(nodes, nodes', path, at, p, c, path[i], 0, nodes[i].child);
  }

  lemma OldNextLink(nodes: seq<Node>, nodes': seq<Node>, path: seq<Str>, at: map<Str, nat>, p: Str, c: nat, i: nat)
    requires Linked(nodes, path, at) && |path| < |nodes| == |nodes'| && p + [c] !in at && 0 < i < |path|
    requires forall k | 0 <= k < |path| :: nodes'[k].sym == nodes[k].sym
    requires nodes'[i].next == nodes[i].next
    requires path[i] != [] && Parent(path[i]) == p ==>
             c < nodes[i].sym || (0 < nodes[i].next < |path| && nodes[nodes[i].next].sym < c)
    ensures NextLink(nodes', path + [p + [c]], at[p + [c] := |path|], i)
  {
    assert NextLink(nodes, path, at, i);
    FirstFromGrows(nodes, nodes', path, at, p, c, Parent(path[i]), nodes[i].sym + 1, nodes[i].next);
  }

  /** The new node itself: it has no children, and its next sibling is the one that came after. */
  lemma NewNodeLinks(nodes': seq<Node>, path: seq<Str>, at: map<Str, nat>, p: Str, c: nat, m: nat)
    requires m == |path| < |nodes'| && Closed(at) && p + [c] !in at && c > 0
    requires nodes'[m].sym == c && nodes'[m].child == 0
    requires FirstFrom(nodes', path, at, p, c + 1, nodes'[m].next)
    ensures ChildLink(nodes', path + [p + [c]], at[p + [c] := m], m)
    ensures NextLink(nodes', path + [p + [c]], at[p + [c] := m], m)
  {
    NoKidsYet(at, p + [c], m);
    KidIs(p, c, p, c);
    FirstFromGrows(nodes', nodes', path, at, p, c, p, c + 1, nodes'[m].next);
  }

  lemma ClosedGrows(at: map<Str, nat>, p: Str, c: nat, m: nat)
    requires Closed(at) && p in at
    ensures Closed(at[p + [c] := m])
  {
    KidIs(p, c, p, c);
    var at' := at[p + [c] := m];
    forall s {:trigger HasParent(at', s)} ensures HasParent(at', s) {
      assert HasParent(at, s);
    }
  }

  lemma FirstChildLinked(nodes: seq<Node>, path: seq<Str>, at: map<Str, nat>, t: nat, c: nat)
    requires Linked(nodes, path, at) && Closed(at) && t < |path| < |nodes| && c > 0
    requires FirstFrom(nodes, path, at, path[t], c + 1, nodes[t].child)
    requires nodes[|path|].child == 0 && nodes[|path|].next == nodes[t].child
    ensures path[t] + [c] !in at
    ensures Linked(WithFirstChild(nodes, t, |path|, c), path + [path[t] + [c]], at[path[t] + [c] := |path|])
  {
    var m, p := |path|, path[t];
    assert ChildLink(nodes, path, at, t);
    assert !HasKid(at, p, c);
    var nodes' := WithFirstChild(nodes, t, m, c);
    var path', at' := path + [p + [c]], at[p + [c] := m];
    NamesGrow(path, at, p + [c]);
    assert FirstFrom(nodes', path, at, p, c + 1, nodes'[m].next);
    NewNodeLinks(nodes', path, at, p, c, m);
    forall i | 0 <= i < m ensures ChildLink(nodes', path', at', i) {
      if i == t {
        NewFirstKid(nodes, path, at, t, c, nodes');
      } else {
        OldChildLink(nodes, nodes', path, at, p, c, i);
      }
    }
    forall i | 0 < i < m ensures NextLink(nodes', path', at', i) {
      FirstIsLeast(nodes, path, at, t, i);
      OldNextLink(nodes, nodes', path, at, p, c, i);
    }
  }

  lemma NewFirstKid(nodes: seq<Node>, path: seq<Str>, at: map<Str, nat>, t: nat, c: nat, nodes': seq<Node>)
    requires Linked(nodes, path, at) && t < |path| < |nodes| == |nodes'| && path[t] + [c] !in at
    requires FirstFrom(nodes, path, at, path[t], c + 1, nodes[t].child)
    requires nodes'[t].child == |path| && nodes'[|path|].sym == c
    ensures ChildLink(nodes', path + [path[t] + [c]], at[path[t] + [c] := |path|], t)
  {
    var m, p := |path|, path[t];
    assert ChildLink(nodes, path, at, t);
    var at' := at[p + [c] := m];
    forall d: nat {:trigger HasKid(at', p, d)} | d < c ensures !HasKid(at', p, d) {
      assert !HasKid(at, p, d);
      KidIs(p, c, p, d);
    }
  }

  /** No sibling comes before the first child. */
  lemma FirstIsLeast(nodes: seq<Node>, path: seq<Str>, at: map<Str, nat>, t: nat, i: nat)
    requires Linked(nodes, path, at) && t < |path| && 0 < i < |path|
    ensures path[i] != [] && Parent(path[i]) == path[t] ==>
            0 < nodes[t].child < |path| && nodes[nodes[t].child].sym <= nodes[i].sym
  {
    assert ChildLink(nodes, path, at, t);
    assert NextLink(nodes, path, at, i);
    if Parent(path[i]) == path[t] {
      KidOfParent(path[i]);
      assert HasKid(at, path[t], nodes[i].sym);
    }
  }

  /** The new node as the sibling after t. */
  function WithSibling(nodes: seq<Node>, t: nat, m: nat, c: nat): seq<Node>
    requires t < m < |nodes|
  {
    nodes[m := nodes[m].(next := nodes[t].next, sym := c, back := 0)][t := nodes[t].(next := m)]
  }

  lemma SiblingLinked(nodes: seq<Node>, path: seq<Str>, at: map<Str, nat>, t: nat, p: Str, c: nat)
    requires Linked(nodes, path, at) && Closed(at) && 0 < t < |path| < |nodes| && p in at
    requires path[t] == p + [nodes[t].sym] && nodes[t].sym < c
    requires FirstFrom(nodes, path, at, p, c + 1, nodes[t].next)
    requires nodes[|path|].child == 0
    ensures p + [c] !in at
    ensures Linked(WithSibling(nodes, t, |path|, c), path + [p + [c]], at[p + [c] := |path|])
  {
    var m := |path|;
    assert NextLink(nodes, path, at, t);
    KidIs(p, nodes[t].sym, p, c);
    assert !HasKid(at, p, c);
    var nodes' := WithSibling(nodes, t, m, c);
    var path', at' := path + [p + [c]], at[p + [c] := m];
    NamesGrow(path, at, p + [c]);
    assert FirstFrom(nodes', path, at, p, c + 1, nodes'[m].next);
    NewNodeLinks(nodes', path, at, p, c, m);
    forall i | 0 <= i < m ensures ChildLink(nodes', path', at', i) {
      if path[i] == p {
        ParentKeepsFirst(nodes, path, at, t, p, c, i, nodes');
      } else {
        OldChildLink(nodes, nodes', path, at, p, c, i);
      }
    }
    forall i | 0 < i < m ensures NextLink(nodes', path', at', i) {
      if i == t {
        NewNextKid(nodes, path, at, t, p, c, nodes');
      } else {
        NotBetween(nodes, path, at, t, p, c, i);
        OldNextLink(nodes, nodes', path, at, p, c, i);
      }
    }
  }

  /** A sibling comes before the new node, so the parent's first child stays. */
  lemma ParentKeepsFirst(nodes: seq<Node>, path: seq<Str>, at: map<Str, nat>, t: nat, p: Str, c: nat, i: nat,
      nodes': seq<Node>)
    requires Linked(nodes, path, at) && 0 < t < |path| < |nodes| == |nodes'| && i < |path| && p + [c] !in at
    requires path[i] == p && path[t] == p + [nodes[t].sym] && nodes[t].sym < c
    requires forall k | 0 <= k < |path| :: nodes'[k].sym == nodes[k].sym
    requires nodes'[i].child == nodes[i].child
    ensures ChildLink(nodes', path + [p + [c]], at[p + [c] := |path|], i)
  {
    KidIs(p, nodes[t].sym, p, c);
    FirstIsLeast(nodes, path, at, i, t);
    assert ChildLink(nodes, path, at, i);
    FirstFromGrows(nodes, nodes', path, at, p, c, p, 0, nodes[i].child);
  }

  lemma NewNextKid(nodes: seq<Node>, path: seq<Str>, at: map<Str, nat>, t: nat, p: Str, c: nat, nodes': seq<Node>)
    requires Linked(nodes, path, at) && 0 < t < |path| < |nodes| == |nodes'| && p + [c] !in at
    requires path[t] == p + [nodes[t].sym] && nodes[t].sym < c
    requires FirstFrom(nodes, path, at, p, c + 1, nodes[t].next)
    requires nodes'[t].next == |path| && nodes'[t].sym == nodes[t].sym && nodes'[|path|].sym == c
    ensures NextLink(nodes', path + [p + [c]], at[p + [c] := |path|], t)
  {
    var m := |path|;
    assert NextLink(nodes, path, at, t);
    KidIs(p, nodes[t].sym, p, c);
    var at' := at[p + [c] := m];
    forall d: nat {:trigger HasKid(at', p, d)} | nodes[t].sym < d < c ensures !HasKid(at', p, d) {
      assert !HasKid(at, p, d);
      KidIs(p, c, p, d);
    }
  }

  /** No other sibling is followed by a symbol beyond c while being before it. */
  lemma NotBetween(nodes: seq<Node>, path: seq<Str>, at: map<Str, nat>, t: nat, p: Str, c: nat, i: nat)
    requires Linked(nodes, path, at) && 0 < t < |path| && 0 < i < |path| && i != t && p + [c] !in at
    requires path[t] == p + [nodes[t].sym] && nodes[t].sym < c
    requires FirstFrom(nodes, path, at, p, c + 1, nodes[t].next)
    ensures path[i] != [] && Parent(path[i]) == p ==>
            c < nodes[i].sym || (0 < nodes[i].next < |path| && nodes[nodes[i].next].sym < c)
  {
    assert NextLink(nodes, path, at, i);
    assert NextLink(nodes, path, at, t);
    if Parent(path[i]) == p {
      KidOfParent(path[i]);
      KidIs(p, nodes[t].sym, p, nodes[i].sym);
      assert HasKid(at, p, nodes[i].sym);
      assert HasKid(at, p, nodes[t].sym);
      if nodes[i].sym > nodes[t].sym {
        assert nodes[t].next != 0 && nodes[nodes[t].next].sym <= nodes[i].sym;
      } else {
        assert nodes[i].next != 0 && nodes[nodes[i].next].sym <= nodes[t].sym;
      }
    }
  }

  // ---- The tree while strings are being put in ----------------------------------------------

  /** The strings that are nodes: the root, and the prefixes of the patterns. */
  ghost predicate Known(ps: seq<Str>, s: Str) {
    s == [] || IsNode(ps, s)
  }

  ghost predicate Matches(nodes: seq<Node>, path: seq<Str>, ps: seq<Str>)
    requires |path| <= |nodes|
  {
    forall i | 0 <= i < |path| :: nodes[i].matched == if path[i] in ps then StrNo(ps, path[i]) + 1 else 0
  }

  /** What create_tree leaves for add_backlinks and interleave to fill in. */
  ghost predicate Unset(nodes: seq<Node>, n: nat) {
    && (forall i | 0 <= i < n <= |nodes| ::
        nodes[i].back == (if i == 0 then NULL else 0) && nodes[i].state == 0 && !nodes[i].isSuffix)
    && (|nodes| > 0 ==> nodes[0].sym == 0)
  }

  /** The nodes not yet taken; the next one may already know its sibling. */
  ghost predicate Untouched(nodes: seq<Node>, n: nat, next: nat) {
    forall i | n <= i < |nodes| :: nodes[i] == if i == n then BLANK.(next := next) else BLANK
  }

  /** The tree of ps, into which also s was put, as far as its shape goes. */
  ghost predicate Grown(nodes: seq<Node>, path: seq<Str>, at: map<Str, nat>, ps: seq<Str>, s: Str) {
    && Linked(nodes, path, at)
    && Closed(at)
    && (forall u :: u in at <==> Known(ps, u) || u <= s)
    && Matches(nodes, path, ps)
    && Unset(nodes, |path|)
  }

  lemma NotYetPattern(at: map<Str, nat>, ps: seq<Str>, s: Str, u: Str)
    requires forall u :: u in at <==> Known(ps, u) || u <= s
    requires u !in at
    ensures u !in ps
  {
    assert u in ps ==> IsNode(ps, u);
  }

  lemma KeysGrow(at: map<Str, nat>, ps: seq<Str>, s: Str, c: nat, m: nat)
    requires forall u :: u in at <==> Known(ps, u) || u <= s
    ensures forall u :: u in at[s + [c] := m] <==> Known(ps, u) || u <= s + [c]
  {
    forall u ensures u in at[s + [c] := m] <==> Known(ps, u) || u <= s + [c] {
      PrefixOfKid(u, s, c);
    }
  }

  lemma PrefixOfKid(u: Str, s: Str, c: nat)
    ensures u <= s + [c] <==> u <= s || u == s + [c]
  {
    if u <= s + [c] && |u| <= |s| {
      assert u == (s + [c])[..|u|] == s[..|u|];
    }
  }

  lemma GrownFirst(nodes: seq<Node>, path: seq<Str>, at: map<Str, nat>, ps: seq<Str>, s: Str, t: nat, c: nat)
    requires Grown(nodes, path, at, ps, s) && t < |path| < |nodes| && path[t] == s && c > 0
    requires FirstFrom(nodes, path, at, s, c + 1, nodes[t].child)
    requires Untouched(nodes, |path|, nodes[t].child)
    ensures Grown(WithFirstChild(nodes, t, |path|, c), path + [s + [c]], at[s + [c] := |path|], ps, s + [c])
  {
    FirstChildLinked(nodes, path, at, t, c);
    ClosedGrows(at, s, c, |path|);
    KeysGrow(at, ps, s, c, |path|);
    NotYetPattern(at, ps, s, s + [c]);
  }

  lemma GrownSibling(nodes: seq<Node>, path: seq<Str>, at: map<Str, nat>, ps: seq<Str>, s: Str, t: nat, c: nat)
    requires Grown(nodes, path, at, ps, s) && 0 < t < |path| < |nodes|
    requires path[t] == s + [nodes[t].sym] && nodes[t].sym < c
    requires FirstFrom(nodes, path, at, s, c + 1, nodes[t].next)
    requires Untouched(nodes, |path|, 0)
    ensures Grown(WithSibling(nodes, t, |path|, c), path + [s + [c]], at[s + [c] := |path|], ps, s + [c])
  {
    SiblingLinked(nodes, path, at, t, s, c);
    ClosedGrows(at, s, c, |path|);
    KeysGrow(at, ps, s, c, |path|);
    NotYetPattern(at, ps, s, s + [c]);
  }

  /** Going down to a node that is there already. */
  lemma GrownAlready(nodes: seq<Node>, path: seq<Str>, at: map<Str, nat>, ps: seq<Str>, s: Str, c: nat)
    requires Grown(nodes, path, at, ps, s) && s + [c] in at
    ensures Grown(nodes, path, at, ps, s + [c])
  {
    KeysGrow(at, ps, s, c, at[s + [c]]);
    assert at == at[s + [c] := at[s + [c]]];
  }

  /** All of the string is in: mark its node. */
  lemma GrownMarked(nodes: seq<Node>, path: seq<Str>, at: map<Str, nat>, ps: seq<Str>, s: Str, t: nat)
    requires Grown(nodes, path, at, ps, s) && t < |path| && path[t] == s
    ensures Grown(nodes[t := nodes[t].(matched := |ps| + 1)], path, at, ps + [s], [])
  {
    var nodes' := nodes[t := nodes[t].(matched := |ps| + 1)];
    SameLinks(nodes, nodes', path, at);
    forall u ensures Known(ps, u) || u <= s <==> Known(ps + [s], u) || u <= [] {
      KnownMore(ps, s, u);
    }
    forall i | 0 <= i < |path|
      ensures nodes'[i].matched == if path[i] in ps + [s] then StrNo(ps + [s], path[i]) + 1 else 0
    {
      if i != t {
        assert path[i] != s;
        assert (ps + [s])[..|ps|] == ps;
      }
    }
  }

  lemma KnownMore(ps: seq<Str>, s: Str, u: Str)
    ensures Known(ps + [s], u) <==> Known(ps, u) || u <= s
  {
    if IsNode(ps, u) {
      var i :| 0 <= i < |ps| && u <= ps[i];
      assert (ps + [s])[i] == ps[i];
    }
    if u <= s {
      assert (ps + [s])[|ps|] == s;
    }
  }

  /** The links only depend on child, next and sym. */
  lemma SameLinks(nodes: seq<Node>, nodes': seq<Node>, path: seq<Str>, at: map<Str, nat>)
    requires Linked(nodes, path, at) && |nodes'| == |nodes|
    requires forall i | 0 <= i < |path| ::
             nodes'[i].child == nodes[i].child && nodes'[i].next == nodes[i].next && nodes'[i].sym == nodes[i].sym
    ensures Linked(nodes', path, at)
  {
    forall i | 0 <= i < |path| ensures ChildLink(nodes', path, at, i) && NextLink(nodes', path, at, i) {
      assert ChildLink(nodes, path, at, i) && NextLink(nodes, path, at, i);
    }
  }

  // ---- The walk ------------------------------------------------------------------------------

  /**
   * Along the siblings of t for sym: to the last one that is not beyond it.
   */
  method Along(nodes: seq<Node>, t0: nat, sym: nat, ghost path: seq<Str>, ghost at: map<Str, nat>, ghost s: Str)
    returns (t: nat)
    requires Linked(nodes, path, at) && 0 < t0 < |path| && path[t0] == s + [nodes[t0].sym] && nodes[t0].sym <= sym
    ensures 0 < t < |path| && path[t] == s + [nodes[t].sym] && nodes[t].sym <= sym
    ensures FirstFrom(nodes, path, at, s, sym + 1, nodes[t].next)
    ensures nodes[t].sym == sym <==> s + [sym] in at
  {
    t := t0;
    NextOf(nodes, path, at, t, s);
    while nodes[t].next != 0 && sym >= nodes[nodes[t].next].sym
      invariant 0 < t < |path| && path[t] == s + [nodes[t].sym] && nodes[t].sym <= sym
      invariant FirstFrom(nodes, path, at, s, nodes[t].sym + 1, nodes[t].next)
      decreases sym - nodes[t].sym
    {
      t := nodes[t].next;
      NextOf(nodes, path, at, t, s);
    }
    assert HasKid(at, s, nodes[t].sym);
    assert HasKid(at, s, sym) <==> s + [sym] in at;
  }

  lemma NextOf(nodes: seq<Node>, path: seq<Str>, at: map<Str, nat>, t: nat, s: Str)
    requires Linked(nodes, path, at) && 0 < t < |path| && path[t] == s + [nodes[t].sym]
    ensures FirstFrom(nodes, path, at, s, nodes[t].sym + 1, nodes[t].next)
    ensures nodes[t].sym > 0
  {
    assert NextLink(nodes, path, at, t);
    KidIs(s, nodes[t].sym, s, nodes[t].sym);
  }

  lemma FirstOf(nodes: seq<Node>, path: seq<Str>, at: map<Str, nat>, t: nat)
    requires Linked(nodes, path, at) && t < |path|
    ensures FirstFrom(nodes, path, at, path[t], 0, nodes[t].child)
  {
    assert ChildLink(nodes, path, at, t);
  }

  function TotalLength(ps: seq<Str>): nat {
    if ps == [] then 0 else TotalLength(ps[..|ps| - 1]) + |ps[|ps| - 1]|
  }

  /** The array of nodes and the next free one. */
  class Tree {
    var nodes: seq<Node>
    var nextp: nat
    ghost var path: seq<Str>
    ghost var at: map<Str, nat>

    ghost predicate Holds(ps: seq<Str>, s: Str, pending: nat)
      reads this
    {
      && nextp == |path|
      && Grown(nodes, path, at, ps, s)
      && Untouched(nodes, nextp, pending)
    }

    /** g_malloc0 of the node array. */
    constructor (capacity: nat)
      requires capacity > 0
      ensures Holds([], [], 0) && |nodes| == capacity && nextp == 1
    {
      nodes := seq(capacity, _ => BLANK);
      nextp := 1;
      path := [[]];
      at := map[[] := 0];
    }

    /** The node at nextp becomes the first child of t. */
    method AppendChild(t: nat, sym: nat, ghost ps: seq<Str>, ghost s: Str)
      requires t < nextp < |nodes| && Holds(ps, s, nodes[t].child) && path[t] == s && sym > 0
      requires FirstFrom(nodes, path, at, s, sym + 1, nodes[t].child)
      modifies this
      ensures Holds(ps, s + [sym], 0) && nextp == old(nextp) + 1 && |nodes| == old(|nodes|)
      ensures path == old(path) + [s + [sym]] && nodes[old(nextp)].child == 0
    {
      GrownFirst(nodes, path, at, ps, s, t, sym);
      nodes := WithFirstChild(nodes, t, nextp, sym);
      path, at := path + [s + [sym]], at[s + [sym] := nextp];
      nextp := nextp + 1;
    }

    /** The node at nextp becomes the sibling after t. */
    method InsertAfter(t: nat, sym: nat, ghost ps: seq<Str>, ghost s: Str)
      requires 0 < t < nextp < |nodes| && Holds(ps, s, 0) && path[t] == s + [nodes[t].sym] && nodes[t].sym < sym
      requires FirstFrom(nodes, path, at, s, sym + 1, nodes[t].next)
      modifies this
      ensures Holds(ps, s + [sym], 0) && nextp == old(nextp) + 1 && |nodes| == old(|nodes|)
      ensures path == old(path) + [s + [sym]] && nodes[old(nextp)].child == 0
    {
      GrownSibling(nodes, path, at, ps, s, t, sym);
      nodes := WithSibling(nodes, t, nextp, sym);
      path, at := path + [s + [sym]], at[s + [sym] := nextp];
      nextp := nextp + 1;
    }

    /** One step down for p[j]: to the child with that symbol, which is made if it is missing. */
    method Down(t0: nat, sym: nat, ghost ps: seq<Str>, ghost s: Str) returns (t: nat)
      requires t0 < nextp < |nodes| && Holds(ps, s, 0) && path[t0] == s && sym > 0
      requires 0 < nodes[t0].child < nextp && nodes[nodes[t0].child].sym <= sym
      modifies this
      ensures Holds(ps, s + [sym], 0) && old(nextp) <= nextp <= old(nextp) + 1 && |nodes| == old(|nodes|)
      ensures t < nextp && path[t] == s + [sym]
    {
      FirstOf(nodes, path, at, t0);
      t := Along(nodes, nodes[t0].child, sym, path, at, s);
      if sym > nodes[t].sym {
        InsertAfter(t, sym, ps, s);
        t := nextp - 1;
      } else {
        GrownAlready(nodes, path, at, ps, s, sym);
      }
    }

    /** t is the node of p[..j], and what comes next can only be a new first child. */
    ghost predicate Reached(ps: seq<Str>, p: Str, t: nat, j: nat)
      reads this
    {
      && j <= |p| && t < nextp <= |nodes| && |path| == nextp && path[t] == p[..j]
      && (j < |p| ==> Holds(ps, p[..j], nodes[t].child) && FirstFrom(nodes, path, at, p[..j], p[j] + 1, nodes[t].child))
      && (j == |p| ==> Holds(ps, p, 0))
    }

    /** t is the node of p[..j], and nothing is pending. */
    ghost predicate Walking(ps: seq<Str>, p: Str, t: nat, j: nat)
      reads this
    {
      && j <= |p| && t < nextp <= |nodes| && |path| == nextp && path[t] == p[..j]
      && Holds(ps, p[..j], 0)
      && FirstFrom(nodes, path, at, p[..j], 0, nodes[t].child)
    }

    /** The first loop of create_tree for one string: along nodes there are already. */
    method WalkDown(p: Str, ghost ps: seq<Str>) returns (t: nat, j: nat)
      requires Holds(ps, [], 0) && 0 !in p && nextp + |p| <= |nodes|
      modifies this
      ensures Reached(ps, p, t, j)
      ensures old(nextp) <= nextp <= old(nextp) + j && |nodes| == old(|nodes|)
    {
      t, j := 0, 0;
      FirstOf(nodes, path, at, 0);
      while nodes[t].child != 0 && j < |p|
        invariant Walking(ps, p, t, j)
        invariant old(nextp) <= nextp <= old(nextp) + j && |nodes| == old(|nodes|)
        decreases |p| - j
      {
        if p[j] < nodes[nodes[t].child].sym {
          Preset(t, j, p, ps);
          return;
        }
        t := WalkOn(p, t, j, ps);
        j := j + 1;
      }
      assert p[..|p|] == p;
    }

    method WalkOn(p: Str, t0: nat, j: nat, ghost ps: seq<Str>) returns (t: nat)
      requires Walking(ps, p, t0, j) && j < |p| && 0 !in p && nextp < |nodes|
      requires nodes[t0].child != 0 && nodes[nodes[t0].child].sym <= p[j]
      modifies this
      ensures Walking(ps, p, t, j + 1) && old(nextp) <= nextp <= old(nextp) + 1 && |nodes| == old(|nodes|)
    {
      t := Down(t0, p[j], ps, p[..j]);
      assert p[..j + 1] == p[..j] + [p[j]];
      FirstOf(nodes, path, at, t);
    }

    /** The next new node will come before the first child of t. */
    method Preset(t: nat, j: nat, p: Str, ghost ps: seq<Str>)
      requires Walking(ps, p, t, j) && j < |p| && nextp < |nodes|
      requires nodes[t].child != 0 && p[j] < nodes[nodes[t].child].sym
      modifies `nodes
      ensures Reached(ps, p, t, j) && |nodes| == old(|nodes|)
    {
      ghost var was := nodes;
      nodes := nodes[nextp := nodes[nextp].(next := nodes[t].child)];
      SameLinks(was, nodes, path, at);
    }

    /** The second loop: nodes for the rest of the string. */
    method Extend(p: Str, t: nat, j: nat, ghost ps: seq<Str>)
      requires Reached(ps, p, t, j) && j < |p| && nextp < |nodes| && 0 !in p
      modifies this
      ensures nextp == old(nextp) + 1 && Reached(ps, p, old(nextp), j + 1) && |nodes| == old(|nodes|)
    {
      AppendChild(t, p[j], ps, p[..j]);
      assert p[..j + 1] == p[..j] + [p[j]];
      assert p[..|p|] == p;
      FirstOf(nodes, path, at, nextp - 1);
    }

    method ExtendAll(p: Str, t0: nat, j0: nat, ghost ps: seq<Str>) returns (t: nat)
      requires Reached(ps, p, t0, j0) && nextp + |p| - j0 <= |nodes| && 0 !in p
      modifies this
      ensures Reached(ps, p, t, |p|)
      ensures nextp == old(nextp) + |p| - j0 && |nodes| == old(|nodes|)
    {
      t := t0;
      var j := j0;
      while j < |p|
        invariant Reached(ps, p, t, j)
        invariant nextp == old(nextp) + j - j0 && |nodes| == old(|nodes|)
      {
        var m := nextp;
        Extend(p, t, j, ps);
        t, j := m, j + 1;
      }
    }

    /** Put one string in and mark its last node; equal strings share it and the last one's number stays. */
    method AddString(p: Str, i: nat, ghost ps: seq<Str>)
      requires Holds(ps, [], 0) && 0 !in p && nextp + |p| <= |nodes| && i == |ps|
      modifies this
      ensures Holds(ps + [p], [], 0) && old(nextp) <= nextp <= old(nextp) + |p| && |nodes| == old(|nodes|)
    {
      var t, j := WalkDown(p, ps);
      t := ExtendAll(p, t, j, ps);
      assert p[..|p|] == p;
      Mark(t, i, ps, p);
    }

    method Mark(t: nat, i: nat, ghost ps: seq<Str>, ghost s: Str)
      requires Holds(ps, s, 0) && t < nextp && path[t] == s && i == |ps|
      modifies `nodes
      ensures Holds(ps + [s], [], 0) && |nodes| == old(|nodes|)
    {
      GrownMarked(nodes, path, at, ps, s, t);
      nodes := nodes[t := nodes[t].(matched := i + 1)];
    }

    /** create_tree, with one node for each character and the root to spare. */
    method Create(strv: seq<Str>)
      requires Proper(strv) && Holds([], [], 0) && nextp == 1 && |nodes| == TotalLength(strv) + 1
      modifies this
      ensures Holds(strv, [], 0) && nextp <= |nodes| == old(|nodes|)
    {
      for i := 0 to |strv|
        invariant Holds(strv[..i], [], 0) && nextp <= TotalLength(strv[..i]) + 1 && |nodes| == old(|nodes|)
      {
        TotalGrows(strv, i);
        AddString(strv[i], i, strv[..i]);
        assert strv[..i + 1] == strv[..i] + [strv[i]];
      }
      assert strv[..|strv|] == strv;
    }
  }

  lemma {:induction false} TotalGrows(ps: seq<Str>, i: nat)
    requires i < |ps|
    ensures TotalLength(ps[..i + 1]) == TotalLength(ps[..i]) + |ps[i]| <= TotalLength(ps)
    decreases |ps| - i
  {
    assert ps[..i + 1][..i] == ps[..i];
    if i + 1 < |ps| {
      TotalGrows(ps, i + 1);
    } else {
      assert ps[..i + 1] == ps;
    }
  }
}
