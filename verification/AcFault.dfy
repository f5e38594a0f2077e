// Two sets of strings on which add_backlinks of contrib/aho-corasick/acism_create.c leads the scan astray.
module AcFault {
  import opened AcSpec
  import opened AcChain
  import opened AcScan
  import opened AcTrie
  import opened AcBack

  lemma NotPrefix(s: Str, p: Str, k: nat)
    requires k < |s| && (k < |p| ==> s[k] != p[k])
    ensures !(s <= p)
  {
  }

  lemma IsStateIf(ps: seq<Str>, s: Str, i: nat)
    requires i < |ps| && s < ps[i]
    ensures IsState(ps, s) && (s != [] ==> IsNode(ps, s))
  {
  }

  lemma IsNodeIf(ps: seq<Str>, s: Str, i: nat)
    requires i < |ps| && s <= ps[i]
    ensures IsNode(ps, s)
  {
  }

  lemma FirstLink(ps: seq<Str>, s: Str)
    requires |s| == 1
    ensures LinkOf(ps, s) == []
  {
  }

  /** One step of the links: the parent's link x has a child for the symbol. */
  lemma LinkStep(ps: seq<Str>, p: Str, c: nat, s: Str, x: Str, y: Str)
    requires p != [] && s == p + [c] && x == LinkOf(ps, p) && y == x + [c] && IsNode(ps, y)
    ensures LinkOf(ps, s) == if IsState(ps, s) then y else x
  {
    KidIs(p, c, p, c);
  }

  /** One step of the links: x has none, but the next node on its chain does. */
  lemma LinkStepBack(ps: seq<Str>, p: Str, c: nat, s: Str, x: Str, z: Str, y: Str)
    requires p != [] && s == p + [c] && IsState(ps, s) && x == LinkOf(ps, p) && x != [] && !IsNode(ps, x + [c])
    requires z == LinkOf(ps, x) && y == z + [c] && IsNode(ps, y)
    ensures LinkOf(ps, s) == y
  {
    KidIs(p, c, p, c);
    assert Finds(ps, z, c) && FirstWith(ps, z, c) == z;
  }

  /** Without calls for the last symbol no call ends there. */
  lemma NoneAtEnd(a: Automaton, text: Str, init: Str, c: nat, call: Call)
    requires Descends(a) && text == init + [c] && call.end == |text| && StepOn(a, StateAfter(a, [], init), c).ends == []
    ensures call !in ScanCalls(a, [], text)
  {
    assert text[..|text| - 1] == init;
    ScanNext(a, [], text, init, c);
    if call in ScanCalls(a, [], text) {
      var i :| 0 <= i < |ScanCalls(a, [], init)| && ScanCalls(a, [], init)[i] == call;
      CallsInText(a, [], init, i);
    }
  }

  /** A state whose link is the root, and a symbol for which neither has a child. */
  lemma Lost(a: Automaton, text: Str, init: Str, c: nat, one: Str, call: Call)
    requires Descends(a) && IsState(a.ps, init) && 0 !in init && init != [] && text == init + [c] && call.end == |text|
    requires a.link(init) == [] && !IsNode(a.ps, text) && one == [c] && !IsNode(a.ps, one)
    ensures call !in ScanCalls(a, [], text)
  {
    ReadsState(a, init);
    LostStep(a, init, c, one);
    NoneAtEnd(a, text, init, c, call);
  }

  lemma LostStep(a: Automaton, x: Str, c: nat, one: Str)
    requires Descends(a) && IsState(a.ps, x) && x != [] && a.link(x) == [] && !IsNode(a.ps, x + [c])
    requires one == [] + [c] && !IsNode(a.ps, one)
    ensures StepOn(a, x, c).ends == []
  {
    if c != 0 {
      assert Walk(a, x, c) == [];
    }
  }

  /** A state whose link y has a child for the symbol that is a pattern: the scan calls back for that. */
  lemma Strayed(a: Automaton, text: Str, init: Str, y: Str, c: nat, p: Str)
    requires Descends(a) && IsState(a.ps, init) && 0 !in init && init != [] && text == init + [c] && c != 0
    requires a.link(init) == y && !IsNode(a.ps, text) && p == y + [c] && p in a.ps
    ensures Call(StrNo(a.ps, p), |text|) in ScanCalls(a, [], text)
  {
    ReadsState(a, init);
    StrayedStep(a, init, y, c, p);
    assert text[..|text| - 1] == init;
    ScanNext(a, [], text, init, c);
    StepSound(a, init, c);
    assert CallsFor(a, init, c, |text|)[0] == Call(StrNo(a.ps, p), |text|);
  }

  lemma StrayedStep(a: Automaton, x: Str, y: Str, c: nat, p: Str)
    requires Descends(a) && IsState(a.ps, x) && x != [] && a.link(x) == y && !IsNode(a.ps, x + [c]) && c != 0
    requires p == y + [c] && p in a.ps
    ensures StepOn(a, x, c).ends != [] && StepOn(a, x, c).ends[0] == p
  {
    PatternIsNode(a.ps, p);
    StatePrefix(a.ps, y, c);
    assert Walk(a, x, c) == y;
  }

  // ---- A missed call ------------------------------------------------------------------------------

  /** "abcd", "bc", "ce" with a..e as 1..5. */
  ghost predicate Missing(ps: seq<Str>) {
    ps == [[1, 2, 3, 4], [2, 3], [3, 5]]
  }

  lemma MissingLeaf(ps: seq<Str>, bc: Str)
    requires Missing(ps) && bc == [2, 3]
    ensures Leaf(ps, bc)
  {
    IsNodeIf(ps, bc, 1);
    NotPrefix(bc, ps[0], 0);
    NotPrefix(bc, ps[2], 0);
  }

  lemma MissingEnds(ps: seq<Str>, abce: Str, e: Str)
    requires Missing(ps) && abce == [1, 2, 3] + [5] && e == [5]
    ensures !IsNode(ps, abce) && !IsNode(ps, e)
  {
    NotPrefix(abce, ps[0], 3);
    NotPrefix(abce, ps[1], 0);
    NotPrefix(abce, ps[2], 0);
    NotPrefix(e, ps[0], 0);
    NotPrefix(e, ps[1], 0);
    NotPrefix(e, ps[2], 0);
  }

  lemma BackIs(ps: seq<Str>, abc: Str, bc: Str, c: Str)
    requires IsState(ps, c) && !IsState(ps, bc) && |abc| == 3 && abc[1..] == bc && bc[1..] == c
    ensures Back(ps, abc) == c
  {
    assert IsSuffix(c, abc);
    var b := Back(ps, abc);
    assert |b| == 2 ==> b == bc;
    SuffixesNest(c, b, abc);
  }

  /** The state abc is linked to the leaf bc, and so to the root, and not to the state c from which "ce" goes on. */
  lemma LeafInsideBreaksLink(ps: seq<Str>, abc: Str, bc: Str, c: Str)
    requires Missing(ps) && abc == [1, 2, 3] && bc == [2, 3] && c == [3]
    ensures IsState(ps, abc) && LinkOf(ps, abc) == bc && TableLink(ps, abc) == [] && Back(ps, abc) == c
  {
    var a: Str, ab: Str, b: Str := [1], [1, 2], [2];
    MissingLeaf(ps, bc);
    IsStateIf(ps, ab, 0);
    IsStateIf(ps, abc, 0);
    IsStateIf(ps, b, 1);
    IsStateIf(ps, c, 2);
    FirstLink(ps, a);
    assert [] + [2] == b && a + [2] == ab && ab + [3] == abc && b + [3] == bc;
    LinkStep(ps, a, 2, ab, [], b);
    LinkStep(ps, ab, 3, abc, b, bc);
    BackIs(ps, abc, bc, c);
  }

  /** In "abce" the string "ce" occurs, and the scan makes no call for it. */
  lemma MissedCall(ps: seq<Str>, abc: Str, text: Str)
    requires Missing(ps) && abc == [1, 2, 3] && text == abc + [5]
    ensures Occurs(ps, [], text, Call(2, 4)) && Call(2, 4) !in BuiltCalls(ps, text)
  {
    var e: Str := [5];
    assert IsState(ps, abc) && TableLink(ps, abc) == [] by {
      LeafInsideBreaksLink(ps, abc, [2, 3], [3]);
    }
    MissingEnds(ps, text, e);
    NotCalled(ps, text, abc, 5, e, Call(2, 4));
    CeOccurs(ps, text, [3, 5]);
  }

  lemma NotCalled(ps: seq<Str>, text: Str, init: Str, c: nat, one: Str, call: Call)
    requires IsState(ps, init) && 0 !in init && init != [] && text == init + [c] && call.end == |text|
    requires TableLink(ps, init) == [] && !IsNode(ps, text) && one == [c] && !IsNode(ps, one)
    ensures call !in BuiltCalls(ps, text)
  {
    BuiltDescends(ps);
    Lost(Built(ps), text, init, c, one, call);
  }

  lemma CeOccurs(ps: seq<Str>, text: Str, ce: Str)
    requires Missing(ps) && text == [1, 2, 3] + [5] && ce == [3, 5]
    ensures Occurs(ps, [], text, Call(2, 4))
  {
    assert ps[2] == ce && text[2..] == ce && text[..4] == text && [] + text == text;
  }

  // ---- A leaf inside a state that does no harm ----------------------------------------------------

  /** "abcd", "bc": the leaf bc is inside the state abc, and no other node ends it. */
  lemma HarmlessLeaf(ps: seq<Str>, abc: Str, bc: Str)
    requires ps == [[1, 2, 3, 4], [2, 3]] && abc == [1, 2, 3] && bc == [2, 3]
    ensures Harmless(ps) && Leaf(ps, bc) && IsState(ps, abc) && IsSuffix(bc, abc)
  {
    IsNodeIf(ps, bc, 1);
    NotPrefix(bc, ps[0], 0);
    IsStateIf(ps, abc, 0);
    assert abc[1..] == bc;
    forall l, s, r {:trigger HarmlessIn(ps, l, s, r)} ensures HarmlessIn(ps, l, s, r) {
      if EndsInside(ps, l, s, r) && 0 < |r| && IsNode(ps, r) {
        NoEnd(ps, l, s, r);
      }
    }
  }

  lemma NoEnd(ps: seq<Str>, l: Str, s: Str, r: Str)
    requires ps == [[1, 2, 3, 4], [2, 3]] && EndsInside(ps, l, s, r) && 0 < |r|
    ensures !IsNode(ps, r)
  {
    LeafIsPattern(ps, l);
    LeafNotEmpty(ps, l);
    assert |s| < 4 && |l| <= |s|;
    assert l == ps[1];
    assert r[0] == 3;
    NotPrefix(r, ps[0], 0);
    NotPrefix(r, ps[1], 0);
  }

  // ---- A false call -------------------------------------------------------------------------------

  /** "xabcde", "abc", "bc", "bdz" with x, a..e, z as 1..7. */
  ghost predicate Straying(ps: seq<Str>) {
    ps == [[1, 2, 3, 4, 5, 6], [2, 3, 4], [3, 4], [3, 5, 7]]
  }

  lemma StrayingLeaf(ps: seq<Str>, abc: Str)
    requires Straying(ps) && abc == [2, 3, 4]
    ensures Leaf(ps, abc) && !IsNode(ps, abc + [5])
  {
    IsNodeIf(ps, abc, 1);
    NotPrefix(abc, ps[0], 0);
    NotPrefix(abc, ps[2], 0);
    NotPrefix(abc, ps[3], 0);
    LeafHasNoChild(ps, abc, 5);
  }

  lemma StrayingEnds(ps: seq<Str>, text: Str)
    requires Straying(ps) && text == [1, 2, 3, 4, 5, 7]
    ensures !IsNode(ps, text)
  {
    NotPrefix(text, ps[0], 5);
    NotPrefix(text, ps[1], 0);
    NotPrefix(text, ps[2], 0);
    NotPrefix(text, ps[3], 0);
  }

  /** The leaf abc is linked to b, the parent of its suffix node bc. */
  lemma LinkOfAbc(ps: seq<Str>, abc: Str, b: Str)
    requires Straying(ps) && abc == [2, 3, 4] && b == [3]
    ensures LinkOf(ps, abc) == b
  {
    var a: Str, ab: Str, bc: Str := [2], [2, 3], [3, 4];
    StrayingLeaf(ps, abc);
    IsStateIf(ps, ab, 1);
    IsStateIf(ps, b, 2);
    IsNodeIf(ps, bc, 2);
    FirstLink(ps, a);
    assert [] + [3] == b && a + [3] == ab && ab + [4] == abc && b + [4] == bc;
    LinkStep(ps, a, 3, ab, [], b);
    LinkStep(ps, ab, 4, abc, b, bc);
  }

  /** The state xabc is linked to the leaf abc. */
  lemma LinkOfXabc(ps: seq<Str>, xabc: Str, abc: Str)
    requires Straying(ps) && xabc == [1, 2, 3, 4] && abc == [2, 3, 4]
    ensures LinkOf(ps, xabc) == abc
  {
    var x: Str, xa: Str, xab: Str, a: Str, ab: Str := [1], [1, 2], [1, 2, 3], [2], [2, 3];
    IsStateIf(ps, xa, 0);
    IsStateIf(ps, xab, 0);
    IsStateIf(ps, xabc, 0);
    IsStateIf(ps, a, 1);
    IsStateIf(ps, ab, 1);
    IsNodeIf(ps, abc, 1);
    FirstLink(ps, x);
    assert [] + [2] == a && x + [2] == xa && xa + [3] == xab && a + [3] == ab && xab + [4] == xabc && ab + [4] == abc;
    LinkStep(ps, x, 2, xa, [], a);
    LinkStep(ps, xa, 3, xab, a, ab);
    LinkStep(ps, xab, 4, xabc, ab, abc);
  }

  /** And so the state xabcd is linked to bd, which is no suffix of it. */
  lemma LinkToNoSuffix(ps: seq<Str>, xabcd: Str, bd: Str)
    requires Straying(ps) && xabcd == [1, 2, 3, 4, 5] && bd == [3, 5]
    ensures IsState(ps, xabcd) && TableLink(ps, xabcd) == bd && !IsSuffix(bd, xabcd)
  {
    var xabc: Str, abc: Str, b: Str := [1, 2, 3, 4], [2, 3, 4], [3];
    StrayingLeaf(ps, abc);
    LinkOfAbc(ps, abc, b);
    LinkOfXabc(ps, xabc, abc);
    IsStateIf(ps, xabcd, 0);
    IsStateIf(ps, bd, 3);
    assert xabc + [5] == xabcd && b + [5] == bd;
    LinkStepBack(ps, xabc, 5, xabcd, abc, b, bd);
    assert xabcd[3..][0] != bd[0];
  }

  /** In "xabcdz" the string "bdz" does not occur, and the scan calls back for it. */
  lemma FalseCall(ps: seq<Str>, xabcd: Str, bd: Str, bdz: Str, text: Str)
    requires Straying(ps) && xabcd == [1, 2, 3, 4, 5] && bd == [3, 5] && bdz == bd + [7] && text == xabcd + [7]
    ensures !Occurs(ps, [], text, Call(3, 6)) && Call(3, 6) in BuiltCalls(ps, text)
  {
    BdzElsewhere(ps, text, bdz);
    LinkToNoSuffix(ps, xabcd, bd);
    StrayingEnds(ps, text);
    BuiltDescends(ps);
    CallForBdz(ps, xabcd, bd, bdz, text);
  }

  lemma CallForBdz(ps: seq<Str>, xabcd: Str, bd: Str, bdz: Str, text: Str)
    requires IsState(ps, xabcd) && 0 !in xabcd && |xabcd| == 5 && text == xabcd + [7] && bdz == bd + [7] && bdz in ps
    requires TableLink(ps, xabcd) == bd && !IsNode(ps, text) && StrNo(ps, bdz) == 3
    ensures Call(3, 6) in BuiltCalls(ps, text)
  {
    BuiltDescends(ps);
    Strayed(Built(ps), text, xabcd, bd, 7, bdz);
  }

  lemma BdzElsewhere(ps: seq<Str>, text: Str, bdz: Str)
    requires Straying(ps) && text == [1, 2, 3, 4, 5, 7] && bdz == [3, 5, 7]
    ensures ps[3] == bdz && StrNo(ps, bdz) == 3 && !Occurs(ps, [], text, Call(3, 6))
  {
    assert text[..6] == text && [] + text == text && text[3..][0] != bdz[0];
  }
}
