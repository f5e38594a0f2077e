// Walking back links: the facts about suffixes, states and patterns that the scan of
// contrib/aho-corasick/acism.c relies on, for a text t followed by the symbol c.
module AcChain {
  import opened AcSpec

  lemma StatePrefix(ps: seq<Str>, u: Str, c: nat)
    requires IsNode(ps, u + [c])
    ensures IsState(ps, u)
  {
    var i :| 0 <= i < |ps| && u + [c] <= ps[i];
    assert u < ps[i];
  }

  lemma StateIsNode(ps: seq<Str>, u: Str)
    requires IsState(ps, u) && u != []
    ensures IsNode(ps, u)
  {
    var i :| 0 <= i < |ps| && u < ps[i];
    assert u <= ps[i];
  }

  lemma PatternIsNode(ps: seq<Str>, p: Str)
    requires p in ps
    ensures IsNode(ps, p)
  {
    var i :| 0 <= i < |ps| && ps[i] == p;
    assert p <= ps[i];
  }

  /** A node without children is a pattern. */
  lemma LeafIsPattern(ps: seq<Str>, s: Str)
    requires IsNode(ps, s) && !IsState(ps, s)
    ensures s in ps
  {
    var i :| 0 <= i < |ps| && s <= ps[i];
    assert !(s < ps[i]);
    assert ps[i] == s;
  }

  /** A string that ends t + [c] is empty, or is u + [c] for a suffix u of t. */
  lemma SuffixOfAppend(v: Str, t: Str, c: nat) returns (u: Str)
    requires IsSuffix(v, t + [c]) && v != []
    ensures v == u + [c] && IsSuffix(u, t)
  {
    u := v[..|v| - 1];
    assert v[|v| - 1] == (t + [c])[|t|];
    assert v == u + [c];
    SuffixAppend(u, t, c);
  }

  // ---- Looking for a transition -----------------------------------------------------------

  /** s is a state ending t, and no longer state ending t has a child for c. */
  ghost predicate Chain(ps: seq<Str>, t: Str, c: nat, s: Str) {
    && IsState(ps, s)
    && IsSuffix(s, t)
    && forall u | IsState(ps, u) && IsSuffix(u, t) && |u| > |s| :: !IsNode(ps, u + [c])
  }

  lemma ChainStep(ps: seq<Str>, t: Str, c: nat, s: Str)
    requires Chain(ps, t, c, s) && s != [] && !IsNode(ps, s + [c])
    ensures Chain(ps, t, c, Back(ps, s))
  {
    var b := Back(ps, s);
    SuffixTransitive(b, s, t);
    forall u | IsState(ps, u) && IsSuffix(u, t) && |u| > |b| ensures !IsNode(ps, u + [c]) {
      if |u| <= |s| {
        SuffixesNest(u, s, t);
      }
    }
  }

  /** No state ending t has a child for c: the scan is back at the root and nothing matched. */
  lemma NoTransition(ps: seq<Str>, t: Str, c: nat)
    requires Chain(ps, t, c, []) && !IsNode(ps, [c])
    ensures LongestState(ps, t + [c]) == [] && Ends(ps, t + [c]) == []
  {
    var v := LongestState(ps, t + [c]);
    if v != [] {
      var u := SuffixOfAppend(v, t, c);
      StateIsNode(ps, v);
      StatePrefix(ps, u, c);
      assert false;
    }
    if Ends(ps, t + [c]) != [] {
      var p := Ends(ps, t + [c])[0];
      EndsAreSuffixes(ps, t + [c], p);
      var u := SuffixOfAppend(p, t, c);
      PatternIsNode(ps, p);
      StatePrefix(ps, u, c);
      assert false;
    }
  }

  // ---- Collecting the matches ----------------------------------------------------------------

  /** The patterns longer than n that end t, longest first. */
  ghost function EndsLonger(ps: seq<Str>, t: Str, n: nat): seq<Str> {
    if |t| <= n then [] else (if t in ps then [t] else []) + EndsLonger(ps, t[1..], n)
  }

  lemma {:induction false} EndsLongerAll(ps: seq<Str>, t: Str)
    ensures EndsLonger(ps, t, 0) == Ends(ps, t)
  {
    if t != [] {
      EndsLongerAll(ps, t[1..]);
    }
  }

  lemma {:induction false} EndsLongerSkip(ps: seq<Str>, t: Str, n: nat, m: nat)
    requires m <= n
    requires forall p | p in ps && IsSuffix(p, t) :: !(m < |p| <= n)
    ensures EndsLonger(ps, t, m) == EndsLonger(ps, t, n)
    decreases |t|
  {
    if |t| > m {
      forall p | p in ps && IsSuffix(p, t[1..]) ensures !(m < |p| <= n) {
        TailIsSuffix(p, t);
      }
      EndsLongerSkip(ps, t[1..], n, m);
      assert IsSuffix(t, t);
      if |t| <= n {
        assert EndsLonger(ps, t[1..], n) == [];
      }
    }
  }

  lemma {:induction false} EndsLongerNext(ps: seq<Str>, t: Str, p: Str)
    requires p in ps && IsSuffix(p, t) && |p| > 0
    ensures EndsLonger(ps, t, |p| - 1) == EndsLonger(ps, t, |p|) + [p]
    decreases |t|
  {
    if |t| == |p| {
      assert t == p;
      assert EndsLonger(ps, t[1..], |p| - 1) == [];
    } else {
      SuffixOfTail(p, t);
      EndsLongerNext(ps, t[1..], p);
    }
  }

  /** Found the new state (or nothing yet), looking at the states ending t that are longer than x. */
  ghost predicate Found(ps: seq<Str>, t: Str, c: nat, x: Str, state: Str) {
    if state != [] then state == LongestState(ps, t + [c])
    else forall u | IsState(ps, u) && IsSuffix(u, t) && |u| > |x| :: !IsState(ps, u + [c])
  }

  /** If x + [c] is the first one that is a state, it is the new state. */
  lemma FoundHere(ps: seq<Str>, t: Str, c: nat, x: Str)
    requires IsState(ps, x) && IsSuffix(x, t) && IsState(ps, x + [c]) && Found(ps, t, c, x, [])
    ensures LongestState(ps, t + [c]) == x + [c]
  {
    SuffixAppend(x, t, c);
    forall v | IsState(ps, v) && IsSuffix(v, t + [c]) ensures |v| <= |x + [c]| {
      if v != [] {
        var u := SuffixOfAppend(v, t, c);
        StateIsNode(ps, v);
        StatePrefix(ps, u, c);
      }
    }
    LongestStateIs(ps, t + [c], x + [c]);
  }

  /** Nothing found down to the root: the new state is the root. */
  lemma FoundNothing(ps: seq<Str>, t: Str, c: nat)
    requires Found(ps, t, c, [], []) && !IsState(ps, [c])
    ensures LongestState(ps, t + [c]) == []
  {
    var v := LongestState(ps, t + [c]);
    if v != [] {
      var u := SuffixOfAppend(v, t, c);
      StateIsNode(ps, v);
      StatePrefix(ps, u, c);
      assert false;
    }
  }

  /** Moving on to the back link misses no state and no pattern in between. */
  lemma FoundStep(ps: seq<Str>, t: Str, c: nat, x: Str, state: Str)
    requires IsState(ps, x) && IsSuffix(x, t) && x != [] && Found(ps, t, c, x, state)
    requires state == [] ==> !IsState(ps, x + [c])
    ensures IsSuffix(Back(ps, x), t) && Found(ps, t, c, Back(ps, x), state)
  {
    var b := Back(ps, x);
    SuffixTransitive(b, x, t);
    if state == [] {
      forall u | IsState(ps, u) && IsSuffix(u, t) && |u| > |b| ensures !IsState(ps, u + [c]) {
        if |u| <= |x| {
          SuffixesNest(u, x, t);
        }
      }
    }
  }

  lemma EndsStep(ps: seq<Str>, t: Str, c: nat, x: Str)
    requires IsState(ps, x) && IsSuffix(x, t) && x != []
    ensures EndsLonger(ps, t + [c], |Back(ps, x)| + 1) == EndsLonger(ps, t + [c], |x|)
  {
    var b := Back(ps, x);
    forall p | p in ps && IsSuffix(p, t + [c]) && |b| + 1 < |p| ensures !(|b| + 1 < |p| <= |x|) {
      var u := SuffixOfAppend(p, t, c);
      PatternIsNode(ps, p);
      StatePrefix(ps, u, c);
      if |u| < |x| {
        SuffixesNest(u, x, t);
      }
    }
    EndsLongerSkip(ps, t + [c], |x|, |b| + 1);
  }

  /** Reporting x + [c], or not, settles the patterns of its length. */
  lemma EndsHere(ps: seq<Str>, t: Str, c: nat, x: Str)
    requires IsSuffix(x, t)
    ensures EndsLonger(ps, t + [c], |x|) == EndsLonger(ps, t + [c], |x| + 1) + (if x + [c] in ps then [x + [c]] else [])
  {
    SuffixAppend(x, t, c);
    if x + [c] in ps {
      EndsLongerNext(ps, t + [c], x + [c]);
    } else {
      forall p | p in ps && IsSuffix(p, t + [c]) ensures !(|x| < |p| <= |x| + 1) {
        if |p| == |x| + 1 {
          SuffixesNest(p, x + [c], t + [c]);
        }
      }
      EndsLongerSkip(ps, t + [c], |x| + 1, |x|);
    }
  }

  /** Without a suffix pattern below x + [c], all matches have been collected. */
  lemma EndsDone(ps: seq<Str>, t: Str, c: nat, x: Str)
    requires IsSuffix(x, t) && !HasSuffixPattern(ps, x + [c])
    ensures EndsLonger(ps, t + [c], |x|) == Ends(ps, t + [c])
  {
    SuffixAppend(x, t, c);
    forall p | p in ps && IsSuffix(p, t + [c]) ensures !(0 < |p| <= |x|) {
      if 0 < |p| <= |x| {
        SuffixesNest(p, x + [c], t + [c]);
      }
    }
    EndsLongerSkip(ps, t + [c], |x|, 0);
    EndsLongerAll(ps, t + [c]);
  }

  /** The first state on the chain with a child for c: no longer pattern ends here, no longer state follows. */
  lemma ChainStarts(ps: seq<Str>, t: Str, c: nat, x: Str)
    requires Chain(ps, t, c, x)
    ensures EndsLonger(ps, t + [c], |x| + 1) == [] && Found(ps, t, c, x, [])
  {
    forall u | IsState(ps, u) && IsSuffix(u, t) && |u| > |x| ensures !IsState(ps, u + [c]) {
      if IsState(ps, u + [c]) {
        StateIsNode(ps, u + [c]);
      }
    }
    forall p | p in ps && IsSuffix(p, t + [c]) ensures !(|x| + 1 < |p| <= |t| + 1) {
      if |x| + 1 < |p| {
        var u := SuffixOfAppend(p, t, c);
        PatternIsNode(ps, p);
        StatePrefix(ps, u, c);
      }
    }
    if |x| <= |t| {
      EndsLongerSkip(ps, t + [c], |t| + 1, |x| + 1);
    }
  }
}
