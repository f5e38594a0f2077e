// What add_backlinks of contrib/aho-corasick/acism_create.c computes, on strings, and when that makes
// the links and flags the scan needs.
module AcBack {
  import opened AcSpec
  import opened AcChain
  import opened AcScan
  import opened AcTrie

  /** The node a node is linked back to: its suffix node, or for a leaf the parent of that. */
  ghost function LinkOf(ps: seq<Str>, s: Str): (b: Str)
    requires s != []
    ensures |b| < |s|
    decreases |s|, 0
  {
    if |s| == 1 then []
    else
      var x := LinkOf(ps, Parent(s));
      if !Finds(ps, x, Last(s)) then []
      else if IsState(ps, s) then FirstWith(ps, x, Last(s)) + [Last(s)]
      else FirstWith(ps, x, Last(s))
  }

  /** Some node on the chain of links from x has a child for c. */
  ghost predicate Finds(ps: seq<Str>, x: Str, c: nat)
    decreases |x|, 1
  {
    IsNode(ps, x + [c]) || (x != [] && Finds(ps, LinkOf(ps, x), c))
  }

  /** The first such node. */
  ghost function FirstWith(ps: seq<Str>, x: Str, c: nat): (y: Str)
    requires Finds(ps, x, c)
    ensures |y| <= |x| && IsNode(ps, y + [c])
    decreases |x|, 2
  {
    if IsNode(ps, x + [c]) then x else FirstWith(ps, LinkOf(ps, x), c)
  }

  /** The suffix node found for a node, or the root. */
  ghost function SuffixNode(ps: seq<Str>, s: Str): (b: Str)
    requires s != []
    ensures |b| < |s|
  {
    if |s| == 1 then []
    else
      var x := LinkOf(ps, Parent(s));
      if Finds(ps, x, Last(s)) then FirstWith(ps, x, Last(s)) + [Last(s)] else []
  }

  /** The is_suffix flag given to a node. */
  ghost predicate SuffixFlag(ps: seq<Str>, s: Str)
    decreases |s|
  {
    |s| > 1 && (SuffixNode(ps, s) in ps || (SuffixNode(ps, s) != [] && SuffixFlag(ps, SuffixNode(ps, s))))
  }

  // ---- When the links are right ----------------------------------------------------------------

  ghost predicate Leaf(ps: seq<Str>, s: Str) {
    IsNode(ps, s) && !IsState(ps, s)
  }

  /** No pattern that ends its branch of the trie occurs inside another pattern before that one's end. */
  ghost predicate NoLeafInside(ps: seq<Str>) {
    forall l, s | Leaf(ps, l) && IsState(ps, s) :: !IsSuffix(l, s)
  }

  /**
   * The only trie nodes that are proper suffixes of a leaf, where that leaf occurs inside a state, are the
   * root and leaves of one symbol.
   */
  ghost predicate Harmless(ps: seq<Str>) {
    forall l, s, r {:trigger HarmlessIn(ps, l, s, r)} :: HarmlessIn(ps, l, s, r)
  }

  ghost predicate HarmlessIn(ps: seq<Str>, l: Str, s: Str, r: Str) {
    EndsInside(ps, l, s, r) && 0 < |r| && IsNode(ps, r) ==> |r| == 1 && Leaf(ps, r)
  }

  /** r is a proper suffix of the leaf l, which is inside the state s. */
  ghost predicate EndsInside(ps: seq<Str>, l: Str, s: Str, r: Str) {
    Leaf(ps, l) && IsState(ps, s) && IsSuffix(l, s) && IsSuffix(r, l) && |r| < |l|
  }

  /**
   * The link of a state is its longest state suffix, or a leaf from which the walk goes on at the root,
   * when that is the longest.
   */
  ghost predicate RightLink(ps: seq<Str>, s: Str) {
    IsState(ps, s) && s != [] ==>
      LinkOf(ps, s) == Back(ps, s)
          || (Back(ps, s) == [] && LinkOf(ps, s) != [] && Leaf(ps, LinkOf(ps, s)) && LinkOf(ps, LinkOf(ps, s)) == [])
  }

  ghost predicate RightUpTo(ps: seq<Str>, n: nat) {
    forall u {:trigger RightLink(ps, u)} | |u| <= n :: RightLink(ps, u)
  }

  lemma LessRight(ps: seq<Str>, m: nat, n: nat)
    requires RightUpTo(ps, n) && m <= n
    ensures RightUpTo(ps, m)
  {
    forall u {:trigger RightLink(ps, u)} | |u| <= m ensures RightLink(ps, u) {
    }
  }

  lemma LeafHasNoChild(ps: seq<Str>, l: Str, c: nat)
    requires Leaf(ps, l)
    ensures !IsNode(ps, l + [c])
  {
    if IsNode(ps, l + [c]) {
      StatePrefix(ps, l, c);
    }
  }

  /** The walk from the link of x finds what the walk from its longest state suffix does. */
  lemma SameWalk(ps: seq<Str>, x: Str, c: nat)
    requires RightLink(ps, x) && IsState(ps, x) && x != []
    ensures var l, b := LinkOf(ps, x), Back(ps, x);
            (Finds(ps, l, c) <==> Finds(ps, b, c)) && (Finds(ps, l, c) ==> FirstWith(ps, l, c) == FirstWith(ps, b, c))
  {
    if LinkOf(ps, x) != Back(ps, x) {
      LeafHasNoChild(ps, LinkOf(ps, x), c);
    }
  }

  /** Over right links the walk finds the longest state suffix with a child for c. */
  lemma {:induction false} WalkFinds(ps: seq<Str>, t: Str, c: nat, x: Str)
    requires Chain(ps, t, c, x) && RightUpTo(ps, |x|)
    ensures Finds(ps, x, c) ==> Chain(ps, t, c, FirstWith(ps, x, c))
    ensures !Finds(ps, x, c) ==> Chain(ps, t, c, []) && !IsNode(ps, [c])
    decreases |x|
  {
    if !IsNode(ps, x + [c]) {
      if x == [] {
        assert [] + [c] == [c];
      } else {
        ChainStep(ps, t, c, x);
        LessRight(ps, |Back(ps, x)|, |x|);
        WalkFinds(ps, t, c, Back(ps, x));
        assert RightLink(ps, x);
        SameWalk(ps, x, c);
      }
    }
  }

  lemma ParentIsState(ps: seq<Str>, s: Str)
    requires IsNode(ps, s) && s != []
    ensures IsState(ps, Parent(s))
  {
    KidOfParent(s);
    StatePrefix(ps, Parent(s), Last(s));
  }

  /** Proper suffixes of s other than the root are proper suffixes of its parent, and the last symbol. */
  lemma SuffixesOfKid(v: Str, s: Str)
    requires IsSuffix(v, s) && |v| < |s| && v != []
    ensures Last(v) == Last(s) && IsSuffix(Parent(v), Parent(s)) && |Parent(v)| < |Parent(s)|
  {
    KidOfParent(s);
    var u := SuffixOfAppend(v, Parent(s), Last(s));
    KidIs(u, Last(s), u, Last(s));
  }

  /**
   * With right links for shorter states, the suffix node of a node is the longest node among its
   * proper suffixes.
   */
  lemma SuffixNodeLongest(ps: seq<Str>, s: Str)
    requires IsNode(ps, s) && s != [] && RightUpTo(ps, |s| - 1)
    ensures IsSuffix(SuffixNode(ps, s), s)
    ensures SuffixNode(ps, s) != [] ==> IsNode(ps, SuffixNode(ps, s))
    ensures forall v | IsNode(ps, v) && IsSuffix(v, s) && |v| < |s| :: |v| <= |SuffixNode(ps, s)|
  {
    if |s| > 1 {
      SuffixNodeIsSuffix(ps, s);
      forall v | IsNode(ps, v) && IsSuffix(v, s) && |v| < |s| ensures |v| <= |SuffixNode(ps, s)| {
        if v != [] {
          NodeIsReached(ps, s, v);
        }
      }
    }
  }

  lemma SuffixNodeIsSuffix(ps: seq<Str>, s: Str)
    requires IsNode(ps, s) && |s| > 1 && RightUpTo(ps, |s| - 1)
    ensures IsSuffix(SuffixNode(ps, s), s) && (SuffixNode(ps, s) != [] ==> IsNode(ps, SuffixNode(ps, s)))
  {
    var p, c := Parent(s), Last(s);
    ParentIsState(ps, s);
    KidOfParent(s);
    StartOfWalk(ps, p, c);
    if Finds(ps, LinkOf(ps, p), c) {
      var y := FirstWith(ps, LinkOf(ps, p), c);
      SuffixTransitive(y, Back(ps, p), p);
      SuffixAppend(y, p, c);
    }
  }

  lemma StartOfWalk(ps: seq<Str>, p: Str, c: nat)
    requires p != [] && IsState(ps, p) && RightUpTo(ps, |p|)
    ensures var x, t := LinkOf(ps, p), Back(ps, p);
            && (Finds(ps, x, c) ==> Chain(ps, t, c, FirstWith(ps, x, c)))
            && (!Finds(ps, x, c) ==> Chain(ps, t, c, []) && !IsNode(ps, [c]))
  {
    var x, t := LinkOf(ps, p), Back(ps, p);
    assert RightLink(ps, p);
    LessRight(ps, |t|, |p|);
    WalkFinds(ps, t, c, t);
    SameWalk(ps, p, c);
  }

  lemma NodeIsReached(ps: seq<Str>, s: Str, v: Str)
    requires IsNode(ps, s) && |s| > 1 && RightUpTo(ps, |s| - 1)
    requires IsNode(ps, v) && IsSuffix(v, s) && 0 < |v| < |s|
    ensures |v| <= |SuffixNode(ps, s)|
  {
    var p, c := Parent(s), Last(s);
    ParentIsState(ps, s);
    StartOfWalk(ps, p, c);
    SuffixesOfKid(v, s);
    KidOfParent(v);
    ParentIsState(ps, v);
    var u, t := Parent(v), Back(ps, p);
    assert IsSuffix(u, t);
    assert IsNode(ps, u + [c]);
  }

  lemma LinkIsSuffixNode(ps: seq<Str>, s: Str)
    requires IsState(ps, s) && s != []
    ensures LinkOf(ps, s) == SuffixNode(ps, s)
  {
  }

  /** From a leaf inside a state the walk goes on at the root. */
  lemma LeafLinkHarmless(ps: seq<Str>, l: Str, s: Str)
    requires Harmless(ps) && Leaf(ps, l) && IsState(ps, s) && IsSuffix(l, s) && l != [] && RightUpTo(ps, |l| - 1)
    ensures LinkOf(ps, l) == []
  {
    SuffixNodeLongest(ps, l);
    assert HarmlessIn(ps, l, s, SuffixNode(ps, l));
  }

  /** The longest node among the proper suffixes of a state is its longest state, or a leaf and that is the root. */
  lemma LongestIsBack(ps: seq<Str>, s: Str, b: Str)
    requires Harmless(ps) && IsState(ps, s) && |b| < |s| && IsSuffix(b, s)
    requires b != [] ==> IsNode(ps, b)
    requires forall v | IsNode(ps, v) && IsSuffix(v, s) && |v| < |s| :: |v| <= |b|
    ensures b == Back(ps, s) || (Leaf(ps, b) && Back(ps, s) == [])
  {
    var u := Back(ps, s);
    if u != [] {
      StateIsNode(ps, u);
    }
    SuffixesNest(u, b, s);
    assert HarmlessIn(ps, b, s, u);
  }

  /** Where leaves inside states are harmless, all links serve. */
  lemma {:induction false} LinksRightIfHarmless(ps: seq<Str>, n: nat)
    requires Harmless(ps)
    ensures RightUpTo(ps, n)
  {
    if n > 0 {
      LinksRightIfHarmless(ps, n - 1);
    }
    forall s {:trigger RightLink(ps, s)} | |s| <= n ensures RightLink(ps, s) {
      if |s| == n && IsState(ps, s) && s != [] {
        HarmlessLink(ps, s);
      }
    }
  }

  lemma HarmlessLink(ps: seq<Str>, s: Str)
    requires Harmless(ps) && IsState(ps, s) && s != [] && RightUpTo(ps, |s| - 1)
    ensures RightLink(ps, s)
  {
    var b := LinkOf(ps, s);
    StateIsNode(ps, s);
    LinkIsSuffixNode(ps, s);
    SuffixNodeLongest(ps, s);
    LongestIsBack(ps, s, b);
    if b != Back(ps, s) {
      LessRight(ps, |b| - 1, |s| - 1);
      LeafLinkHarmless(ps, b, s);
    }
  }

  /** ... and so do the flags, on states and leaves alike: a flag is set wherever a pattern is a proper suffix. */
  lemma {:induction false} SuffixFlagServes(ps: seq<Str>, s: Str)
    requires Harmless(ps) && IsNode(ps, s) && s != [] && HasSuffixPattern(ps, s)
    ensures SuffixFlag(ps, s)
    decreases |s|
  {
    LinksRightIfHarmless(ps, |s| - 1);
    SuffixNodeLongest(ps, s);
    var b := SuffixNode(ps, s);
    var i :| 0 <= i < |ps| && 0 < |ps[i]| < |s| && IsSuffix(ps[i], s);
    PatternIsNode(ps, ps[i]);
    SuffixesNest(ps[i], b, s);
    if ps[i] != b {
      SuffixFlagServes(ps, b);
    }
  }

  // ---- The links the table holds -----------------------------------------------------------------

  /** A leaf has no number of its own, so a link to it is read as one to the root. */
  ghost function TableLink(ps: seq<Str>, s: Str): Str {
    if s == [] || !IsState(ps, LinkOf(ps, s)) then [] else LinkOf(ps, s)
  }

  /** What the table of these patterns holds. */
  ghost function Built(ps: seq<Str>): Automaton {
    Automaton(ps, s => TableLink(ps, s), s => SuffixFlag(ps, s))
  }

  lemma BuiltDescends(ps: seq<Str>)
    ensures Descends(Built(ps))
  {
  }

  /** The calls of a scan with the table of these patterns. */
  ghost function BuiltCalls(ps: seq<Str>, text: Str): seq<Call> {
    BuiltDescends(ps);
    ScanCalls(Built(ps), [], text)
  }

  /** Where leaves inside states are harmless, the scan is right. */
  lemma HarmlessRight(ps: seq<Str>)
    requires Harmless(ps)
    ensures Right(Built(ps))
  {
    var a := Built(ps);
    forall s {:trigger a.link(s)} | IsState(ps, s) && s != [] ensures a.link(s) == Back(ps, s) {
      LinksRightIfHarmless(ps, |s|);
      assert RightLink(ps, s);
    }
    forall y {:trigger a.flag(y)} | IsNode(ps, y) && HasSuffixPattern(ps, y) ensures a.flag(y) {
      SuffixFlagServes(ps, y);
    }
  }

  // ---- Exactly when the links are right -----------------------------------------------------------

  ghost predicate TableLinksRight(ps: seq<Str>) {
    forall s {:trigger TableLink(ps, s)} | IsState(ps, s) && s != [] :: TableLink(ps, s) == Back(ps, s)
  }

  lemma LinkIsNode(ps: seq<Str>, s: Str)
    requires IsState(ps, s) && s != [] && LinkOf(ps, s) != []
    ensures IsNode(ps, LinkOf(ps, s))
  {
  }

  ghost predicate Serves(ps: seq<Str>, s: Str)
    requires s != []
  {
    LinkOf(ps, s) == Back(ps, s) || (Leaf(ps, LinkOf(ps, s)) && Back(ps, s) == [])
  }

  lemma ServesIff(ps: seq<Str>, s: Str)
    requires IsState(ps, s) && s != []
    ensures TableLink(ps, s) == Back(ps, s) <==> Serves(ps, s)
  {
    if LinkOf(ps, s) != [] {
      LinkIsNode(ps, s);
    }
  }

  /**
   * The links read from the table are right exactly when every state is linked to its longest state
   * suffix, or to a leaf where that is the root.
   */
  lemma TableLinksRightIff(ps: seq<Str>)
    ensures TableLinksRight(ps) <==> forall s {:trigger Serves(ps, s)} | IsState(ps, s) && s != [] :: Serves(ps, s)
  {
    forall s | IsState(ps, s) && s != [] ensures TableLink(ps, s) == Back(ps, s) <==> Serves(ps, s) {
      ServesIff(ps, s);
    }
  }

  /** Over right table links the walk from x meets every state that is a suffix of x. */
  lemma {:induction false} WalkMeets(ps: seq<Str>, x: Str, c: nat, v: Str)
    requires TableLinksRight(ps) && IsState(ps, x) && IsState(ps, v) && v != [] && IsSuffix(v, x) && IsNode(ps, v + [c])
    ensures Finds(ps, x, c) && IsSuffix(v, FirstWith(ps, x, c)) && IsSuffix(FirstWith(ps, x, c), x)
    decreases |x|
  {
    if !IsNode(ps, x + [c]) {
      assert |v| == |x| ==> v == x;
      assert TableLink(ps, x) == Back(ps, x);
      WalkMeets(ps, Back(ps, x), c, v);
      SuffixTransitive(FirstWith(ps, Back(ps, x), c), Back(ps, x), x);
    }
  }

  /** A leaf inside a state has no other state as a proper suffix than the root. */
  ghost predicate NoStateEndsLeaf(ps: seq<Str>) {
    forall l, s, r {:trigger EndsInside(ps, l, s, r)} | EndsInside(ps, l, s, r) && IsState(ps, r) :: r == []
  }

  lemma LinkIfNotRoot(ps: seq<Str>, p: Str, v: Str)
    requires TableLinksRight(ps) && IsState(ps, p) && IsState(ps, v) && IsSuffix(v, p) && 0 < |v| < |p|
    ensures LinkOf(ps, p) == Back(ps, p) && IsSuffix(v, Back(ps, p))
  {
    assert TableLink(ps, p) == Back(ps, p);
  }

  /**
   * What the walk for the last symbol of s finds: a state suffix of the parent that has the leaf's
   * parent as a suffix.
   */
  lemma WalkToLeaf(ps: seq<Str>, p: Str, c: nat, v: Str)
    requires TableLinksRight(ps) && IsState(ps, p) && p != [] && v != [] && IsState(ps, v)
    requires IsSuffix(v, p) && |v| < |p| && IsNode(ps, v + [c])
    ensures LinkOf(ps, p) == Back(ps, p) && Finds(ps, LinkOf(ps, p), c)
    ensures var y := FirstWith(ps, LinkOf(ps, p), c); IsSuffix(v, y) && IsSuffix(y, p)
  {
    LinkIfNotRoot(ps, p, v);
    var b := LinkOf(ps, p);
    WalkMeets(ps, b, c, v);
    SuffixTransitive(FirstWith(ps, b, c), b, p);
  }

  lemma LinkAppends(ps: seq<Str>, s: Str, p: Str, c: nat)
    requires IsState(ps, s) && |s| > 1 && p == Parent(s) && c == Last(s) && Finds(ps, LinkOf(ps, p), c)
    ensures LinkOf(ps, s) == FirstWith(ps, LinkOf(ps, p), c) + [c]
  {
  }

  /** The link of a state with a leaf among its suffixes ends in that leaf. */
  lemma LinkEndsInLeaf(ps: seq<Str>, l: Str, s: Str)
    requires TableLinksRight(ps) && Leaf(ps, l) && IsState(ps, s) && IsSuffix(l, s) && |l| > 1
    ensures IsSuffix(l, LinkOf(ps, s)) && IsSuffix(LinkOf(ps, s), s)
  {
    var p, c, v := Parent(s), Last(s), Parent(l);
    assert |l| == |s| ==> l == s;
    SuffixesOfKid(l, s);
    KidOfParent(s);
    KidOfParent(l);
    StateIsNode(ps, s);
    ParentIsState(ps, s);
    ParentIsState(ps, l);
    WalkToLeaf(ps, p, c, v);
    LinkAppends(ps, s, p, c);
    SuffixAppend(FirstWith(ps, LinkOf(ps, p), c), p, c);
    SuffixAppend(v, FirstWith(ps, LinkOf(ps, p), c), c);
  }

  lemma {:induction false} LeafInsideEnds(ps: seq<Str>, l: Str, s: Str, r: Str)
    requires TableLinksRight(ps) && Leaf(ps, l) && IsState(ps, s) && IsSuffix(l, s)
    requires IsState(ps, r) && IsSuffix(r, l) && |r| < |l|
    ensures r == []
    decreases |s|
  {
    if r != [] {
      LinkEndsInLeaf(ps, l, s);
      assert TableLink(ps, s) == Back(ps, s);
      SuffixTransitive(r, l, s);
      LeafInsideEnds(ps, l, LinkOf(ps, s), r);
    }
  }

  /** No leaf inside a state ends in another leaf of two or more symbols. */
  ghost predicate ShortEnds(ps: seq<Str>) {
    forall l, s, r {:trigger EndsInside(ps, l, s, r)} | EndsInside(ps, l, s, r) && Leaf(ps, r) :: |r| == 1
  }

  /**
   * All table links are right only if no leaf inside a state has a state as a proper suffix; and unless such
   * a leaf ends in another leaf of two or more symbols, that is enough.
   */
  lemma TableLinksIff(ps: seq<Str>)
    ensures TableLinksRight(ps) ==> NoStateEndsLeaf(ps)
    ensures ShortEnds(ps) ==> (TableLinksRight(ps) <==> NoStateEndsLeaf(ps))
    ensures Harmless(ps) <==> ShortEnds(ps) && NoStateEndsLeaf(ps)
  {
    if TableLinksRight(ps) {
      forall l, s, r {:trigger EndsInside(ps, l, s, r)} | EndsInside(ps, l, s, r) && IsState(ps, r) ensures r == [] {
        LeafInsideEnds(ps, l, s, r);
      }
    }
    HarmlessIff(ps);
    if Harmless(ps) {
      HarmlessRight(ps);
      forall s {:trigger TableLink(ps, s)} | IsState(ps, s) && s != [] ensures TableLink(ps, s) == Back(ps, s) {
        assert Built(ps).link(s) == Back(ps, s);
      }
    }
  }

  lemma LeafNotEmpty(ps: seq<Str>, l: Str)
    requires Leaf(ps, l)
    ensures l != []
  {
  }

  lemma HarmlessIff(ps: seq<Str>)
    ensures Harmless(ps) <==> ShortEnds(ps) && NoStateEndsLeaf(ps)
  {
    if Harmless(ps) {
      forall l, s, r {:trigger EndsInside(ps, l, s, r)} | EndsInside(ps, l, s, r) && Leaf(ps, r) ensures |r| == 1 {
        assert HarmlessIn(ps, l, s, r);
        LeafNotEmpty(ps, r);
      }
      forall l, s, r {:trigger EndsInside(ps, l, s, r)} | EndsInside(ps, l, s, r) && IsState(ps, r) ensures r == [] {
        assert HarmlessIn(ps, l, s, r);
        if r != [] {
          StateIsNode(ps, r);
        }
      }
    }
    if ShortEnds(ps) && NoStateEndsLeaf(ps) {
      forall l, s, r {:trigger HarmlessIn(ps, l, s, r)} ensures HarmlessIn(ps, l, s, r) {
        assert EndsInside(ps, l, s, r) ==> IsState(ps, r) || !IsState(ps, r);
      }
    }
  }

  /** add_backlinks itself links every state to its longest state suffix, if and only if no leaf is inside a state. */
  lemma BacklinksRightIff(ps: seq<Str>)
    ensures (forall s | IsState(ps, s) && s != [] :: LinkOf(ps, s) == Back(ps, s)) <==> NoLeafInside(ps)
  {
    if NoLeafInside(ps) {
      forall l, s, r {:trigger HarmlessIn(ps, l, s, r)} ensures HarmlessIn(ps, l, s, r) {
      }
      forall s | IsState(ps, s) && s != [] ensures LinkOf(ps, s) == Back(ps, s) {
        LinksRightIfHarmless(ps, |s|);
        assert RightLink(ps, s);
        LessRight(ps, |s| - 1, |s|);
        StateIsNode(ps, s);
        SuffixNodeLongest(ps, s);
      }
    }
    if forall s | IsState(ps, s) && s != [] :: LinkOf(ps, s) == Back(ps, s) {
      forall l, s | Leaf(ps, l) && IsState(ps, s) ensures !IsSuffix(l, s) {
        forall u {:trigger RightLink(ps, u)} | |u| <= |s| ensures RightLink(ps, u) {
        }
        NoLeafUnderRightLinks(ps, l, s);
      }
    }
  }

  /** A leaf inside a state leads, over such links, to a leaf inside a shorter state. */
  lemma {:induction false} NoLeafUnderRightLinks(ps: seq<Str>, l: Str, s: Str)
    requires Leaf(ps, l) && IsState(ps, s) && RightUpTo(ps, |s|)
    requires forall u | IsState(ps, u) && u != [] :: LinkOf(ps, u) == Back(ps, u)
    ensures !IsSuffix(l, s)
    decreases |s|
  {
    if IsSuffix(l, s) {
      StateIsNode(ps, s);
      LessRight(ps, |s| - 1, |s|);
      SuffixNodeLongest(ps, s);
      LinkIsSuffixNode(ps, s);
      var b := Back(ps, s);
      SuffixesNest(l, b, s);
      LessRight(ps, |b|, |s|);
      NoLeafUnderRightLinks(ps, l, b);
    }
  }
}
