// What the back links of a table need for its scan (contrib/aho-corasick) to be right on every text.
module AcNeed {
  import opened AcSpec
  import opened AcChain
  import opened AcScan
  import opened AcBack

  /** The scan with the table of these patterns calls back for exactly what occurs, in every text. */
  ghost predicate Exact(ps: seq<Str>) {
    forall text: Str, call {:trigger Occurs(ps, [], text, call)} :: call in BuiltCalls(ps, text) <==>
        Occurs(ps, [], text, call)
  }

  /** No suffix of a state that is longer than its table link goes on where the state does not. */
  ghost predicate NothingMissed(ps: seq<Str>) {
    forall s, r, c {:trigger Missed(ps, s, r, c)} :: !Missed(ps, s, r, c)
  }

  ghost predicate Missed(ps: seq<Str>, s: Str, r: Str, c: nat) {
    && s != [] && IsState(ps, s) && IsSuffix(r, s) && |TableLink(ps, s)| < |r| < |s|
    && IsNode(ps, r + [c]) && !IsNode(ps, s + [c])
  }

  /** Where this is not so, the link is not right. */
  lemma MissedLink(ps: seq<Str>, s: Str, r: Str, c: nat)
    requires Missed(ps, s, r, c)
    ensures IsState(ps, r) && TableLink(ps, s) != Back(ps, s)
  {
    StatePrefix(ps, r, c);
  }

  // ---- How long what is found can be ---------------------------------------------------------------------

  lemma {:induction false} WalkShort(a: Automaton, x: Str, c: nat)
    requires Descends(a) && IsState(a.ps, x)
    ensures |Walk(a, x, c)| <= |x|
    ensures x != [] && !IsNode(a.ps, x + [c]) ==> |Walk(a, x, c)| <= |a.link(x)|
    decreases |x|
  {
    if x != [] && !IsNode(a.ps, x + [c]) {
      WalkShort(a, a.link(x), c);
    }
  }

  /** All these are at most that long. */
  ghost predicate Within(ends: seq<Str>, n: nat) {
    forall i | 0 <= i < |ends| :: |ends[i]| <= n
  }

  lemma {:induction false} GatherShort(a: Automaton, x: Str, c: nat, found: Str, n: nat)
    requires Descends(a) && IsState(a.ps, x) && |x| < n && |found| <= n
    ensures |Gather(a, x, c, found).state| <= n
    ensures Within(Gather(a, x, c, found).ends, n)
    decreases |x|
  {
    if x != [] && !Settled(a, x, c, found) {
      GatherShort(a, a.link(x), c, Noted(a, x, c, found), n);
    }
  }

  /** A step reaches one symbol further than the walk. */
  lemma StepShort(a: Automaton, x: Str, c: nat, n: nat)
    requires Descends(a) && IsState(a.ps, x) && |Walk(a, x, c)| < n
    ensures |StepOn(a, x, c).state| <= n
    ensures Within(StepOn(a, x, c).ends, n)
  {
    GatherShort(a, Walk(a, x, c), c, [], n);
  }

  /** From a state that does not go on, reading k symbols reaches k beyond its link at most. */
  lemma {:induction false} StateShort(a: Automaton, s: Str, z: Str, text: Str)
    requires Descends(a) && IsState(a.ps, s) && s != [] && 0 !in s && z != [] && text == s + z
             && !IsNode(a.ps, s + [z[0]])
    ensures |StateAfter(a, [], text)| <= |a.link(s)| + |z|
    ensures Within(StepOn(a, StateAfter(a, [], text[..|text| - 1]), text[|text| - 1]).ends, |a.link(s)| + |z|)
    decreases |z|
  {
    var init, c := text[..|text| - 1], text[|text| - 1];
    ReadsState(a, s);
    if |z| == 1 {
      assert init == s && c == z[0];
      WalkShort(a, s, c);
      StepShort(a, s, c, |a.link(s)| + 1);
    } else {
      var y := z[..|z| - 1];
      assert init == s + y && y[0] == z[0];
      StateShort(a, s, y, init);
      WalkShort(a, StateAfter(a, [], init), c);
      StepShort(a, StateAfter(a, [], init), c, |a.link(s)| + |z|);
    }
    ScanNext(a, [], text, init, c);
  }

  /** So no call at the end of the text is for a longer pattern. */
  lemma NoLongCall(a: Automaton, s: Str, z: Str, text: Str, p: Str)
    requires Descends(a) && IsState(a.ps, s) && s != [] && 0 !in s && z != [] && text == s + z
             && !IsNode(a.ps, s + [z[0]])
    requires p in a.ps && |p| > |a.link(s)| + |z|
    ensures Call(StrNo(a.ps, p), |text|) !in ScanCalls(a, [], text)
  {
    var init, c, call := text[..|text| - 1], text[|text| - 1], Call(StrNo(a.ps, p), |text|);
    StateShort(a, s, z, text);
    ScanNext(a, [], text, init, c);
    if call in ScanCalls(a, [], text) {
      NotEarlier(a, init, call);
      assert call in CallsFor(a, StateAfter(a, [], init), c, |text|);
      NotForLonger(a, StateAfter(a, [], init), c, |text|, p, |a.link(s)| + |z|);
    }
  }

  lemma NotEarlier(a: Automaton, init: Str, call: Call)
    requires Descends(a) && call.end == |init| + 1
    ensures call !in ScanCalls(a, [], init)
  {
    if call in ScanCalls(a, [], init) {
      var i :| 0 <= i < |ScanCalls(a, [], init)| && ScanCalls(a, [], init)[i] == call;
      CallsInText(a, [], init, i);
    }
  }

  lemma NotForLonger(a: Automaton, x: Str, c: nat, end: nat, p: Str, n: nat)
    requires Descends(a) && IsState(a.ps, x) && p in a.ps && |p| > n && Within(StepOn(a, x, c).ends, n)
    ensures Call(StrNo(a.ps, p), end) !in CallsFor(a, x, c, end)
  {
    StepSound(a, x, c);
    var ends := StepOn(a, x, c).ends;
    forall i | 0 <= i < |CallsFor(a, x, c, end)| ensures CallsFor(a, x, c, end)[i] != Call(StrNo(a.ps, p), end) {
      assert ends[i] in a.ps && a.ps[StrNo(a.ps, ends[i])] == ends[i] != p;
    }
  }

  // ---- What right calls need -----------------------------------------------------------------------------

  /** A pattern that a longer suffix of the state would have found is missed. */
  lemma CallMissed(ps: seq<Str>, s: Str, r: Str, c: nat) returns (text: Str, call: Call)
    requires Proper(ps) && Missed(ps, s, r, c)
    ensures Occurs(ps, [], text, call) && call !in BuiltCalls(ps, text)
  {
    var i :| 0 <= i < |ps| && r + [c] <= ps[i];
    var p := ps[i];
    var z := p[|r|..];
    assert p == r + z && z[0] == c by { assert (r + [c])[|r|] == c; }
    text, call := s + z, Call(StrNo(ps, p), |s + z|);
    OccursAtEnd(ps, s, r, z, p, text);
    NoZero(ps, s);
    BuiltDescends(ps);
    NoLongCall(Built(ps), s, z, text, p);
  }

  lemma OccursAtEnd(ps: seq<Str>, s: Str, r: Str, z: Str, p: Str, text: Str)
    requires p in ps && p == r + z && z != [] && IsSuffix(r, s) && text == s + z
    ensures Occurs(ps, [], text, Call(StrNo(ps, p), |text|))
  {
    assert text[..|text|] == text && [] + text == text;
    assert text[|text| - |p|..] == s[|s| - |r|..] + z;
  }

  lemma NoZero(ps: seq<Str>, s: Str)
    requires Proper(ps) && IsState(ps, s)
    ensures 0 !in s
  {
  }

  /** If all calls on all texts are exact, no state is linked past a suffix that goes on where it does not. */
  lemma ExactNeeds(ps: seq<Str>)
    requires Proper(ps) && Exact(ps)
    ensures NothingMissed(ps)
  {
    forall s, r, c {:trigger Missed(ps, s, r, c)} ensures !Missed(ps, s, r, c) {
      if Missed(ps, s, r, c) {
        var text, call := CallMissed(ps, s, r, c);
        assert false;
      }
    }
  }

  /** Harmless leaves are enough: then all calls on all texts are exact. */
  lemma HarmlessExact(ps: seq<Str>)
    requires Proper(ps) && Harmless(ps)
    ensures Exact(ps)
  {
    HarmlessRight(ps);
    BuiltDescends(ps);
    forall text: Str, call ensures call in BuiltCalls(ps, text) <==> Occurs(ps, [], text, call) {
      ScanRight(Built(ps), [], text);
      ReportsExact(ps, [], text, call);
      assert LongestState(ps, []) == [];
    }
  }
}
