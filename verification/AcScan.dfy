// The scan of contrib/aho-corasick/acism.c on strings: what it does over any back links and suffix
// flags, and that over right ones it finds exactly the patterns ending at each position.
module AcScan {
  import opened Common
  import opened AcSpec
  import opened AcChain

  /** A trie with a back link for every state and a suffix flag for every node. */
  datatype Automaton = Automaton(ps: seq<Str>, link: Str -> Str, flag: Str -> bool)

  /** Links lead from state to state, towards the root. */
  ghost predicate Descends(a: Automaton) {
    forall x {:trigger a.link(x)} | IsState(a.ps, x) && x != [] :: IsState(a.ps, a.link(x)) && |a.link(x)| < |x|
  }

  /** The first loop: back from x to a state with a child for c, or to the root. */
  ghost function Walk(a: Automaton, x: Str, c: nat): (y: Str)
    requires Descends(a) && IsState(a.ps, x)
    ensures IsState(a.ps, y) && (y == [] || IsNode(a.ps, y + [c]))
    decreases |x|
  {
    if x == [] || IsNode(a.ps, x + [c]) then x else Walk(a, a.link(x), c)
  }

  /** The state after a symbol, and the patterns reported for it. */
  datatype Step = Step(state: Str, ends: seq<Str>)

  /** The new state, once x was looked at. */
  ghost function Noted(a: Automaton, x: Str, c: nat, found: Str): Str {
    if found == [] && IsState(a.ps, x + [c]) then x + [c] else found
  }

  /** Nothing more can change once a state is known and the flag says that no suffix matches. */
  ghost predicate Settled(a: Automaton, x: Str, c: nat, found: Str) {
    IsNode(a.ps, x + [c]) && Noted(a, x, c, found) != [] && !a.flag(x + [c])
  }

  ghost function Reported(a: Automaton, x: Str, c: nat): seq<Str> {
    if x + [c] in a.ps then [x + [c]] else []
  }

  /** The second loop: back from x, reporting patterns, until all is settled or the root was looked at. */
  ghost function Gather(a: Automaton, x: Str, c: nat, found: Str): Step
    requires Descends(a) && IsState(a.ps, x)
    decreases |x|
  {
    if x == [] || Settled(a, x, c, found) then Step(Noted(a, x, c, found), Reported(a, x, c))
    else
      var rest := Gather(a, a.link(x), c, Noted(a, x, c, found));
      Step(rest.state, Reported(a, x, c) + rest.ends)
  }

  /** A transition without flags leads to a state and nothing is reported. */
  ghost predicate Plain(a: Automaton, y: Str, c: nat) {
    y + [c] !in a.ps && !a.flag(y + [c])
  }

  ghost function Enter(a: Automaton, y: Str, c: nat): Step
    requires Descends(a) && IsState(a.ps, y)
  {
    if !IsNode(a.ps, y + [c]) then Step([], [])
    else if Plain(a, y, c) then Step(y + [c], [])
    else Gather(a, y, c, [])
  }

  /** One symbol of the text; 0 is in no pattern. */
  ghost function StepOn(a: Automaton, x: Str, c: nat): Step
    requires Descends(a) && IsState(a.ps, x)
  {
    if c == 0 then Step([], []) else Enter(a, Walk(a, x, c), c)
  }

  lemma {:induction false} GatherSound(a: Automaton, x: Str, c: nat, found: Str)
    requires Descends(a) && IsState(a.ps, x) && IsState(a.ps, found)
    ensures IsState(a.ps, Gather(a, x, c, found).state)
    ensures forall i | 0 <= i < |Gather(a, x, c, found).ends| :: Gather(a, x, c, found).ends[i] in a.ps
    decreases |x|
  {
    if x != [] && !Settled(a, x, c, found) {
      GatherSound(a, a.link(x), c, Noted(a, x, c, found));
    }
  }

  lemma StepSound(a: Automaton, x: Str, c: nat)
    requires Descends(a) && IsState(a.ps, x)
    ensures IsState(a.ps, StepOn(a, x, c).state)
    ensures forall i | 0 <= i < |StepOn(a, x, c).ends| :: StepOn(a, x, c).ends[i] in a.ps
  {
    if c != 0 {
      var y := Walk(a, x, c);
      GatherSound(a, y, c, []);
      if IsNode(a.ps, y + [c]) && Plain(a, y, c) && !IsState(a.ps, y + [c]) {
        LeafIsPattern(a.ps, y + [c]);
      }
    }
  }

  /** The state after a text. */
  ghost function StateAfter(a: Automaton, x: Str, text: Str): (s: Str)
    requires Descends(a) && IsState(a.ps, x)
    ensures IsState(a.ps, s)
    decreases |text|
  {
    if text == [] then x
    else
      var n := |text| - 1;
      StepSound(a, StateAfter(a, x, text[..n]), text[n]);
      StepOn(a, StateAfter(a, x, text[..n]), text[n]).state
  }

  /** The calls made for the last symbol of a text. */
  ghost function CallsFor(a: Automaton, x: Str, c: nat, end: nat): seq<Call>
    requires Descends(a) && IsState(a.ps, x)
  {
    StepSound(a, x, c);
    CallsAt(a.ps, StepOn(a, x, c).ends, end)
  }

  /** The calls made for a text, if none of them asks to stop. */
  ghost function ScanCalls(a: Automaton, x: Str, text: Str): seq<Call>
    requires Descends(a) && IsState(a.ps, x)
    decreases |text|
  {
    if text == [] then []
    else
      var n := |text| - 1;
      ScanCalls(a, x, text[..n]) + CallsFor(a, StateAfter(a, x, text[..n]), text[n], |text|)
  }

  /** Every call is made at the end of the part of the text that was read. */
  lemma {:induction false} CallsInText(a: Automaton, x: Str, text: Str, i: nat)
    requires Descends(a) && IsState(a.ps, x) && i < |ScanCalls(a, x, text)|
    ensures ScanCalls(a, x, text)[i].end <= |text|
    decreases |text|
  {
    var n := |text| - 1;
    if i < |ScanCalls(a, x, text[..n])| {
      CallsInText(a, x, text[..n], i);
    }
  }

  // ---- Over right links ---------------------------------------------------------------------------

  /** Links are the longest proper suffixes that are states; a flag is set where a pattern is a proper suffix. */
  ghost predicate Right(a: Automaton) {
    && (forall x {:trigger a.link(x)} | IsState(a.ps, x) && x != [] :: a.link(x) == Back(a.ps, x))
    && (forall y {:trigger a.flag(y)} | IsNode(a.ps, y) && HasSuffixPattern(a.ps, y) :: a.flag(y))
  }

  lemma RightDescends(a: Automaton)
    requires Right(a)
    ensures Descends(a)
  {
  }

  lemma {:induction false} WalkRight(a: Automaton, t: Str, c: nat, x: Str)
    requires Right(a) && Descends(a) && Chain(a.ps, t, c, x)
    ensures Chain(a.ps, t, c, Walk(a, x, c))
    decreases |x|
  {
    if x != [] && !IsNode(a.ps, x + [c]) {
      ChainStep(a.ps, t, c, x);
      WalkRight(a, t, c, a.link(x));
    }
  }

  lemma NotNode(ps: seq<Str>, x: Str, c: nat)
    requires !IsNode(ps, x + [c])
    ensures !IsState(ps, x + [c]) && x + [c] !in ps
  {
    if IsState(ps, x + [c]) {
      StateIsNode(ps, x + [c]);
    }
    if x + [c] in ps {
      PatternIsNode(ps, x + [c]);
    }
  }

  lemma NotedRight(a: Automaton, t: Str, c: nat, x: Str, found: Str)
    requires IsState(a.ps, x) && IsSuffix(x, t) && Found(a.ps, t, c, x, found)
    ensures Found(a.ps, t, c, x, Noted(a, x, c, found))
    ensures Noted(a, x, c, found) == [] ==> !IsState(a.ps, x + [c])
  {
    if found == [] && IsState(a.ps, x + [c]) {
      FoundHere(a.ps, t, c, x);
    }
  }

  /** The patterns up to the length of x and c that end the text, and the next state, as the walk from x gives them. */
  ghost predicate Gathered(a: Automaton, t: Str, c: nat, x: Str, r: Step) {
    && r.state == LongestState(a.ps, t + [c])
    && EndsLonger(a.ps, t + [c], |x| + 1) + r.ends == Ends(a.ps, t + [c])
  }

  lemma GatherLast(a: Automaton, t: Str, c: nat, x: Str, found: Str)
    requires Right(a) && IsState(a.ps, x) && IsSuffix(x, t) && Found(a.ps, t, c, x, found)
    requires x == [] || Settled(a, x, c, found)
    ensures Gathered(a, t, c, x, Step(Noted(a, x, c, found), Reported(a, x, c)))
  {
    NotedRight(a, t, c, x, found);
    EndsHere(a.ps, t, c, x);
    if x == [] {
      EndsLongerAll(a.ps, t + [c]);
      assert x + [c] == [c];
      if Noted(a, x, c, found) == [] {
        FoundNothing(a.ps, t, c);
      }
    } else {
      EndsDone(a.ps, t, c, x);
    }
  }

  lemma GatherOn(a: Automaton, t: Str, c: nat, x: Str, rest: Step)
    requires IsState(a.ps, x) && IsSuffix(x, t) && x != [] && Gathered(a, t, c, Back(a.ps, x), rest)
    ensures Gathered(a, t, c, x, Step(rest.state, Reported(a, x, c) + rest.ends))
  {
    EndsHere(a.ps, t, c, x);
    EndsStep(a.ps, t, c, x);
    Assoc(EndsLonger(a.ps, t + [c], |x| + 1), Reported(a, x, c), rest.ends);
  }

  lemma {:induction false} GatherRight(a: Automaton, t: Str, c: nat, x: Str, found: Str)
    requires Right(a) && Descends(a) && IsState(a.ps, x) && IsSuffix(x, t) && Found(a.ps, t, c, x, found)
    ensures Gathered(a, t, c, x, Gather(a, x, c, found))
    decreases |x|
  {
    if x == [] || Settled(a, x, c, found) {
      GatherLast(a, t, c, x, found);
    } else {
      var now := Noted(a, x, c, found);
      NotedRight(a, t, c, x, found);
      FoundStep(a.ps, t, c, x, now);
      GatherRight(a, t, c, a.link(x), now);
      GatherOn(a, t, c, x, Gather(a, a.link(x), c, now));
    }
  }

  lemma NoZeroNode(ps: seq<Str>, u: Str)
    requires Proper(ps)
    ensures !IsNode(ps, u + [0])
  {
    forall i | 0 <= i < |ps| ensures !(u + [0] <= ps[i]) {
      assert (u + [0])[|u|] == 0;
      assert 0 !in ps[i];
    }
  }

  /** A byte that is in no pattern ends every match. */
  lemma UnknownSymbol(ps: seq<Str>, t: Str)
    requires Proper(ps)
    ensures LongestState(ps, t + [0]) == [] && Ends(ps, t + [0]) == []
  {
    forall u | IsState(ps, u) && IsSuffix(u, t) ensures !IsNode(ps, u + [0]) {
      NoZeroNode(ps, u);
    }
    NoZeroNode(ps, []);
    assert [] + [0] == [0];
    NoTransition(ps, t, 0);
  }

  lemma EnterRight(a: Automaton, t: Str, c: nat, y: Str)
    requires Right(a) && Descends(a) && Chain(a.ps, t, c, y) && (y == [] || IsNode(a.ps, y + [c]))
    ensures Enter(a, y, c) == Step(LongestState(a.ps, t + [c]), Ends(a.ps, t + [c]))
  {
    if !IsNode(a.ps, y + [c]) {
      assert [] + [c] == [c];
      NoTransition(a.ps, t, c);
    } else {
      ChainStarts(a.ps, t, c, y);
      if Plain(a, y, c) {
        if !IsState(a.ps, y + [c]) {
          LeafIsPattern(a.ps, y + [c]);
        }
        FoundHere(a.ps, t, c, y);
        EndsHere(a.ps, t, c, y);
        EndsDone(a.ps, t, c, y);
      } else {
        GatherRight(a, t, c, y, []);
      }
    }
  }

  /** One symbol: from the longest state that ends the text to the next one, reporting the patterns that end there. */
  lemma StepRight(a: Automaton, t: Str, c: nat)
    requires Right(a) && Descends(a) && Proper(a.ps)
    ensures StepOn(a, LongestState(a.ps, t), c) == Step(LongestState(a.ps, t + [c]), Ends(a.ps, t + [c]))
  {
    if c == 0 {
      UnknownSymbol(a.ps, t);
    } else {
      WalkRight(a, t, c, LongestState(a.ps, t));
      EnterRight(a, t, c, Walk(a, LongestState(a.ps, t), c));
    }
  }

  lemma LastRight(a: Automaton, t: Str, c: nat, tc: Str, end: nat)
    requires Right(a) && Descends(a) && Proper(a.ps) && tc == t + [c]
    ensures StepOn(a, LongestState(a.ps, t), c).state == LongestState(a.ps, tc)
    ensures (forall i | 0 <= i < |Ends(a.ps, tc)| :: Ends(a.ps, tc)[i] in a.ps)
         && CallsFor(a, LongestState(a.ps, t), c, end) == CallsAt(a.ps, Ends(a.ps, tc), end)
  {
    StepRight(a, t, c);
    EndsArePatterns(a.ps, tc);
  }

  lemma ScanNext(a: Automaton, x: Str, text: Str, init: Str, c: nat)
    requires Descends(a) && IsState(a.ps, x) && text != [] && init == text[..|text| - 1] && c == text[|text| - 1]
    ensures StateAfter(a, x, text) == StepOn(a, StateAfter(a, x, init), c).state
    ensures ScanCalls(a, x, text) == ScanCalls(a, x, init) + CallsFor(a, StateAfter(a, x, init), c, |text|)
  {
  }

  /** The calls due for a text, from those due without its last symbol. */
  lemma DueNext(ps: seq<Str>, before: Str, text: Str, init: Str)
    requires text != [] && init == text[..|text| - 1]
    ensures (forall i | 0 <= i < |Ends(ps, before + text)| :: Ends(ps, before + text)[i] in ps)
         && Reports(ps, before, text) == Reports(ps, before, init) + CallsAt(ps, Ends(ps, before + text), |text|)
  {
    EndsArePatterns(ps, before + text);
  }

  /** The scan over right links makes the calls due and ends in the state that goes on. */
  ghost predicate Scanned(a: Automaton, before: Str, text: Str)
    requires Descends(a)
  {
    && StateAfter(a, LongestState(a.ps, before), text) == LongestState(a.ps, before + text)
    && ScanCalls(a, LongestState(a.ps, before), text) == Reports(a.ps, before, text)
  }

  lemma ScannedNothing(a: Automaton, before: Str)
    requires Descends(a)
    ensures Scanned(a, before, [])
  {
    assert before + [] == before;
  }

  lemma WithLast(before: Str, text: Str, init: Str, c: nat)
    requires text != [] && init == text[..|text| - 1] && c == text[|text| - 1]
    ensures before + text == (before + init) + [c]
  {
  }

  lemma ScannedOn(a: Automaton, x: Str, text: Str, init: Str, c: nat, t: Str, tc: Str, due: seq<Call>)
    requires Right(a) && Descends(a) && Proper(a.ps) && IsState(a.ps, x) && tc == t + [c]
    requires text != [] && init == text[..|text| - 1] && c == text[|text| - 1]
    requires StateAfter(a, x, init) == LongestState(a.ps, t) && ScanCalls(a, x, init) == due
    ensures StateAfter(a, x, text) == LongestState(a.ps, tc)
    ensures (forall i | 0 <= i < |Ends(a.ps, tc)| :: Ends(a.ps, tc)[i] in a.ps)
         && ScanCalls(a, x, text) == due + CallsAt(a.ps, Ends(a.ps, tc), |text|)
  {
    LastRight(a, t, c, tc, |text|);
    ScanNext(a, x, text, init, c);
  }

  lemma ScannedNext(a: Automaton, before: Str, text: Str, init: Str, c: nat, t: Str, tc: Str)
    requires Right(a) && Descends(a) && Proper(a.ps) && Scanned(a, before, init)
    requires text != [] && init == text[..|text| - 1] && c == text[|text| - 1]
    requires t == before + init && tc == before + text
    ensures Scanned(a, before, text)
  {
    WithLast(before, text, init, c);
    ScannedOn(a, LongestState(a.ps, before), text, init, c, t, tc, Reports(a.ps, before, init));
    DueNext(a.ps, before, text, init);
  }

  lemma {:induction false} ScanRight(a: Automaton, before: Str, text: Str)
    requires Right(a) && Descends(a) && Proper(a.ps)
    ensures Scanned(a, before, text)
    decreases |text|
  {
    if text == [] {
      ScannedNothing(a, before);
    } else {
      var init, c := text[..|text| - 1], text[|text| - 1];
      ScanRight(a, before, init);
      ScannedNext(a, before, text, init, c, before + init, before + text);
    }
  }

  // ---- Over any links -----------------------------------------------------------------------------

  lemma {:induction false} GatherKeeps(a: Automaton, x: Str, c: nat, found: Str)
    requires Descends(a) && IsState(a.ps, x) && Noted(a, x, c, found) != []
    ensures Gather(a, x, c, found).state == Noted(a, x, c, found)
    decreases |x|
  {
    var now := Noted(a, x, c, found);
    if x != [] && !Settled(a, x, c, found) {
      GatherKeeps(a, a.link(x), c, now);
    }
  }

  /** Whatever the links, reading a state from the root leads to it. */
  lemma {:induction false} ReadsState(a: Automaton, x: Str)
    requires Descends(a) && IsState(a.ps, x) && 0 !in x
    ensures StateAfter(a, [], x) == x
    decreases |x|
  {
    if x != [] {
      var n := |x| - 1;
      var p, c := x[..n], x[n];
      assert x == p + [c];
      StateIsNode(a.ps, x);
      StatePrefix(a.ps, p, c);
      ReadsState(a, p);
      if !Plain(a, p, c) {
        GatherKeeps(a, p, c, []);
      }
    }
  }
}
