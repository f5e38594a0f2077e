// acism_lookup of contrib/aho-corasick/acism.c: on every table that encodes an automaton the scan does
// what the automaton does, and over right links it calls back for exactly the patterns that occur.
module AcLookup {
  import opened Common
  import opened AcSpec
  import opened AcScan
  import opened AcTable
  import opened AcChain

  /** Read a state's back link; an invalid entry means the root. */
  method FollowBack(tab: Table, s: nat, ghost a: Automaton, ghost nsyms: nat, ghost base: Str -> nat, ghost x: Str)
    returns (b: nat)
    requires Encodes(tab, a, nsyms, base) && IsState(a.ps, x) && x != [] && s == base(x)
    ensures b == base(a.link(x))
  {
    assert BackEncoded(tab, a, base, x);
    var t := PTran(tab, s, 0);
    b := if t.sym == 0 then t.next else 0;
  }

  /** Whether the entry for sym is valid at this state. */
  method HasTransition(tab: Table, s: nat, sym: nat, ghost a: Automaton, ghost nsyms: nat, ghost base: Str -> nat,
      ghost x: Str)
    returns (valid: bool)
    requires Encodes(tab, a, nsyms, base) && 0 < sym < nsyms && IsState(a.ps, x) && s == base(x)
    ensures valid <==> IsNode(a.ps, x + [sym])
    ensures s == 0 <==> x == []
  {
    assert ChildEncoded(tab, a, base, x, sym);
    assert OwnNumber(a.ps, base, x, []);
    valid := PTran(tab, s, sym).sym == 0;
  }

  /** The first loop: follow back links until a state has a transition for sym, or at the root. */
  method FindTransition(tab: Table, state: nat, sym: nat, ghost a: Automaton, ghost nsyms: nat, ghost base: Str -> nat,
      ghost x: Str)
    returns (s: nat, valid: bool, ghost y: Str)
    requires Encodes(tab, a, nsyms, base) && Descends(a) && 0 < sym < nsyms && IsState(a.ps, x) && state == base(x)
    ensures y == Walk(a, x, sym) && s == base(y)
    ensures valid <==> IsNode(a.ps, y + [sym])
  {
    s, y := state, x;
    valid := HasTransition(tab, s, sym, a, nsyms, base, y);
    while !valid && s != 0
      invariant IsState(a.ps, y) && s == base(y) && Walk(a, y, sym) == Walk(a, x, sym)
      invariant valid <==> IsNode(a.ps, y + [sym])
      invariant s == 0 <==> y == []
      decreases |y|
    {
      s := FollowBack(tab, s, a, nsyms, base, y);
      y := a.link(y);
      valid := HasTransition(tab, s, sym, a, nsyms, base, y);
    }
  }

  /** The number `want` can be read at this slot: in the entry of a leaf, or by probing the hash. */
  ghost predicate NumberAt(tab: Table, slot: nat, want: nat) {
    && slot < |tab.tranv|
    && var next := TranAt(tab, slot).next;
    if next < tab.tranSize then tab.hashMod > 0 && HashFinds(tab, slot, want) else next == tab.tranSize + want
  }

  /** The string number at a slot. */
  method StringNumber(tab: Table, slot: nat, ghost want: nat) returns (strno: nat)
    requires NumberAt(tab, slot, want)
    ensures strno == want
  {
    var t := TranAt(tab, slot);
    if t.next >= tab.tranSize {
      strno := t.next - tab.tranSize;
    } else {
      strno := ProbeHash(tab, slot, want);
    }
  }

  /** Where the number of a pattern is. */
  lemma PatternEntry(tab: Table, a: Automaton, nsyms: nat, base: Str -> nat, x: Str, c: nat)
    requires Encodes(tab, a, nsyms, base) && 0 < c < nsyms && IsState(a.ps, x) && x + [c] in a.ps
    ensures NumberAt(tab, base(x) + c, StrNo(a.ps, x + [c]))
  {
    assert ChildEncoded(tab, a, base, x, c);
    assert HashEncoded(tab, a.ps, base, x, c);
    PatternIsNode(a.ps, x + [c]);
  }

  method ProbeHash(tab: Table, slot: nat, ghost want: nat) returns (strno: nat)
    requires tab.hashMod > 0 && HashFinds(tab, slot, want)
    ensures strno == want
  {
    ghost var at: nat :| HashedAt(tab, slot, want, at);
    var i := Hash(tab, slot);
    while tab.hashv[i].state != slot
      invariant Hash(tab, slot) <= i <= at < |tab.hashv|
      decreases at - i
    {
      i := i + 1;
    }
    strno := tab.hashv[i].strno;
  }

  /** The calls made so far, none of which asked to stop. */
  ghost predicate Quiet(cb: seq<Call> -> int, calls: seq<Call>, k: nat) {
    forall i | 0 < i <= k <= |calls| :: cb(calls[..i]) == 0
  }

  lemma QuietMore(cb: seq<Call> -> int, calls: seq<Call>, call: Call)
    requires Quiet(cb, calls, |calls|)
    ensures Quiet(cb, calls + [call], |calls|)
    ensures cb(calls + [call]) == 0 ==> Quiet(cb, calls + [call], |calls| + 1)
  {
    assert forall i | 0 < i <= |calls| :: (calls + [call])[..i] == calls[..i];
    assert (calls + [call])[..|calls| + 1] == calls + [call];
  }

  /** Stopped by the callback on the last of these calls. */
  ghost predicate Stopped(cb: seq<Call> -> int, calls: seq<Call>, ret: int) {
    |calls| > 0 && ret == cb(calls) && ret != 0 && Quiet(cb, calls, |calls| - 1)
  }

  // ---- Collecting the matches -------------------------------------------------------------------

  /** The calls at one offset for a list of patterns. */
  ghost function CallsOf(ps: seq<Str>, ends: seq<Str>, end: nat): seq<Call> {
    if forall i | 0 <= i < |ends| :: ends[i] in ps then CallsAt(ps, ends, end) else []
  }

  lemma CallsOfJoin(ps: seq<Str>, u: seq<Str>, v: seq<Str>, end: nat)
    requires forall i | 0 <= i < |u| :: u[i] in ps
    requires forall i | 0 <= i < |v| :: v[i] in ps
    ensures CallsOf(ps, u + v, end) == CallsOf(ps, u, end) + CallsOf(ps, v, end)
  {
    var all := u + v;
    forall i | 0 <= i < |all| ensures all[i] in ps && all[i] == if i < |u| then u[i] else v[i - |u|] {
    }
    CallsAtJoin(ps, u, v, all, end);
  }

  lemma CallsAtJoin(ps: seq<Str>, u: seq<Str>, v: seq<Str>, all: seq<Str>, end: nat)
    requires (forall i | 0 <= i < |u| :: u[i] in ps) && (forall i | 0 <= i < |v| :: v[i] in ps)
    requires |all| == |u| + |v|
    requires forall i | 0 <= i < |all| :: all[i] in ps && all[i] == if i < |u| then u[i] else v[i - |u|]
    ensures CallsAt(ps, all, end) == CallsAt(ps, u, end) + CallsAt(ps, v, end)
  {
  }

  /**
   * The state known when the callback said stop at pattern p: the new one, if the transition led to it or if it is
   * longer than p, so that it came before p on the chain; otherwise the root.
   */
  ghost function StopState(state: Str, entry: Str, p: Str): Str {
    if state == entry || |state| > |p| then state else []
  }

  /**
   * The calls of one offset were made and the new state is known; or the callback said stop, with the
   * state found by then.  `entry` is where the transition led.
   */
  ghost predicate Collected(a: Automaton, base: Str -> nat, entry: Str, r: Step, end: nat, cb: seq<Call> -> int,
    before: seq<Call>, ret: int, calls: seq<Call>, state: nat)
  {
    && calls <= before + CallsOf(a.ps, r.ends, end)
    && (ret == 0 ==>
        calls == before + CallsOf(a.ps, r.ends, end) && Quiet(cb, calls, |calls|) && state == base(r.state))
    && (ret != 0 ==>
        && Stopped(cb, calls, ret) && |before| < |calls| && calls[|calls| - 1].strno < |a.ps|
        && state == base(StopState(r.state, entry, a.ps[calls[|calls| - 1].strno])))
  }

  /** The callback for x + [sym], if that is a pattern. */
  method Report(tab: Table, s: nat, sym: nat, end: nat, cb: seq<Call> -> int, calls: seq<Call>, isMatch: bool,
    ghost a: Automaton, ghost nsyms: nat, ghost base: Str -> nat, ghost x: Str)
    returns (ret: int, calls': seq<Call>)
    requires Encodes(tab, a, nsyms, base) && 0 < sym < nsyms && IsState(a.ps, x)
    requires s == base(x) && (isMatch <==> x + [sym] in a.ps) && Quiet(cb, calls, |calls|)
    ensures calls' == calls + CallsOf(a.ps, Reported(a, x, sym), end)
    ensures if ret == 0 then Quiet(cb, calls', |calls'|) else Stopped(cb, calls', ret) && |calls| < |calls'|
    ensures ret != 0 ==> x + [sym] in a.ps && calls'[|calls'| - 1].strno == StrNo(a.ps, x + [sym])
  {
    ret, calls' := 0, calls;
    if isMatch {
      PatternEntry(tab, a, nsyms, base, x, sym);
      var strno := StringNumber(tab, s + sym, StrNo(a.ps, x + [sym]));
      QuietMore(cb, calls, Call(strno, end));
      calls' := calls + [Call(strno, end)];
      ret := cb(calls');
    }
  }

  /** The new state, if x + [sym] is the first one with a state of its own. */
  method NoteState(tab: Table, s: nat, sym: nat, state: nat, ghost a: Automaton, ghost nsyms: nat,
      ghost base: Str -> nat, ghost x: Str, ghost found: Str)
    returns (state': nat)
    requires Encodes(tab, a, nsyms, base) && 0 < sym < nsyms && IsState(a.ps, x) && IsState(a.ps, found)
    requires s == base(x) && state == base(found) && IsNode(a.ps, x + [sym])
    ensures state' == base(Noted(a, x, sym, found))
  {
    state' := state;
    assert ChildEncoded(tab, a, base, x, sym);
    assert OwnNumber(a.ps, base, found, []);
    var next := PTran(tab, s, sym);
    if !IsState(a.ps, x + [sym]) {
      LeafIsPattern(a.ps, x + [sym]);
    }
    if state == 0 && next.next < tab.tranSize {
      state' := next.next;
    }
  }

  /** One turn of the second loop: report, note the state, and whether all is settled. */
  method LookAt(tab: Table, s: nat, sym: nat, end: nat, cb: seq<Call> -> int, calls: seq<Call>, state: nat,
    ghost a: Automaton, ghost nsyms: nat, ghost base: Str -> nat, ghost x: Str, ghost found: Str)
    returns (ret: int, calls': seq<Call>, state': nat, last: bool)
    requires Encodes(tab, a, nsyms, base) && 0 < sym < nsyms && IsState(a.ps, x) && IsState(a.ps, found)
    requires s == base(x) && state == base(found) && Quiet(cb, calls, |calls|)
    ensures calls' == calls + CallsOf(a.ps, Reported(a, x, sym), end)
    ensures if ret == 0 then Quiet(cb, calls', |calls'|) else Stopped(cb, calls', ret) && |calls| < |calls'|
    ensures ret != 0 ==> state' == state && x + [sym] in a.ps
                         && calls'[|calls'| - 1].strno == StrNo(a.ps, x + [sym])
    ensures ret == 0 ==> state' == base(Noted(a, x, sym, found)) && (last <==> Settled(a, x, sym, found))
  {
    ret, calls', state', last := 0, calls, state, false;
    var valid := HasTransition(tab, s, sym, a, nsyms, base, x);
    if valid {
      assert ChildEncoded(tab, a, base, x, sym);
      var next := PTran(tab, s, sym);
      ret, calls' := Report(tab, s, sym, end, cb, calls, next.isMatch, a, nsyms, base, x);
      if ret == 0 {
        state' := NoteState(tab, s, sym, state, a, nsyms, base, x, found);
        RootIsZero(a.ps, base, Noted(a, x, sym, found));
        last := state' != 0 && !next.hasSuffix;
      }
    } else {
      NotNode(a.ps, x, sym);
      assert calls + CallsOf(a.ps, Reported(a, x, sym), end) == calls;
    }
  }

  lemma RootIsZero(ps: seq<Str>, base: Str -> nat, x: Str)
    requires Numbered(ps, base) && IsState(ps, x)
    ensures base(x) == 0 <==> x == []
  {
    assert OwnNumber(ps, base, x, []);
  }

  /** What the second loop keeps: the patterns reported so far and those the walk from x will add are the ones due. */
  ghost predicate Midway(a: Automaton, base: Str -> nat, entry: Str, c: nat, end: nat, before: seq<Call>, r: Step,
    calls: seq<Call>, done: seq<Str>, x: Str, found: Str)
    requires Descends(a)
  {
    && IsState(a.ps, x) && IsState(a.ps, found) && (found == [] || found == r.state)
    && (if found == [] then r.state != entry && |r.state| <= |x| + 1 else found == entry || |found| > |x| + 1)
    && (forall i | 0 <= i < |done| :: done[i] in a.ps) && calls == before + CallsOf(a.ps, done, end)
    && (forall i | 0 <= i < |r.ends| :: r.ends[i] in a.ps)
    && Gather(a, x, c, found).state == r.state && done + Gather(a, x, c, found).ends == r.ends
  }

  /** After x was looked at the calls made are some of those due. */
  lemma MidwayCalls(a: Automaton, base: Str -> nat, entry: Str, c: nat, end: nat, before: seq<Call>, r: Step,
    calls: seq<Call>, done: seq<Str>, x: Str, found: Str)
    requires Descends(a) && Midway(a, base, entry, c, end, before, r, calls, done, x, found)
    ensures var done', calls' := done + Reported(a, x, c), calls + CallsOf(a.ps, Reported(a, x, c), end);
            && calls' == before + CallsOf(a.ps, done', end) && done' <= r.ends
            && calls' <= before + CallsOf(a.ps, r.ends, end)
  {
    var here, g := Reported(a, x, c), Gather(a, x, c, found);
    CallsOfJoin(a.ps, done, here, end);
    assert here <= g.ends;
    CallsOfPrefix(a.ps, done + here, r.ends, end);
  }

  lemma CallsOfPrefix(ps: seq<Str>, u: seq<Str>, all: seq<Str>, end: nat)
    requires u <= all && forall i | 0 <= i < |all| :: all[i] in ps
    ensures CallsOf(ps, u, end) <= CallsOf(ps, all, end)
  {
    forall i | 0 <= i < |u| ensures u[i] in ps && u[i] == all[i] {
    }
  }

  /** One turn of the walk, apart from what is reported there. */
  lemma GatherTurn(a: Automaton, c: nat, x: Str, found: Str)
    requires Descends(a) && IsState(a.ps, x) && x != [] && !Settled(a, x, c, found)
    ensures IsState(a.ps, a.link(x))
    ensures var g, rest := Gather(a, x, c, found), Gather(a, a.link(x), c, Noted(a, x, c, found));
            g.state == rest.state && g.ends == Reported(a, x, c) + rest.ends
  {
  }

  /** A state that is yet to be found is no longer than what is looked at. */
  lemma {:induction false} GatherShort(a: Automaton, x: Str, c: nat)
    requires Descends(a) && IsState(a.ps, x)
    ensures |Gather(a, x, c, []).state| <= |x| + 1
    decreases |x|
  {
    if Noted(a, x, c, []) != [] {
      GatherKeeps(a, x, c, []);
    } else if x != [] {
      GatherShort(a, a.link(x), c);
    }
  }

  /** Where the callback says stop, the state found by then. */
  lemma MidwayStop(a: Automaton, base: Str -> nat, entry: Str, c: nat, end: nat, before: seq<Call>, r: Step,
    calls: seq<Call>, done: seq<Str>, x: Str, found: Str)
    requires Descends(a) && Midway(a, base, entry, c, end, before, r, calls, done, x, found)
    ensures found == StopState(r.state, entry, x + [c])
  {
  }

  lemma NotedState(a: Automaton, c: nat, x: Str, found: Str)
    requires Descends(a) && IsState(a.ps, x) && IsState(a.ps, found)
    requires found == [] || found == Gather(a, x, c, found).state
    ensures IsState(a.ps, Noted(a, x, c, found))
    ensures Noted(a, x, c, found) == [] || Noted(a, x, c, found) == Gather(a, x, c, found).state
  {
    if Noted(a, x, c, found) != [] {
      GatherKeeps(a, x, c, found);
    }
  }

  lemma MidwayDone(ps: seq<Str>, done: seq<Str>, ends: seq<Str>)
    requires done <= ends && forall i | 0 <= i < |ends| :: ends[i] in ps
    ensures forall i | 0 <= i < |done| :: done[i] in ps
  {
    forall i | 0 <= i < |done| ensures done[i] in ps {
      assert done[i] == ends[i];
    }
  }

  lemma MidwayOn(a: Automaton, base: Str -> nat, entry: Str, c: nat, end: nat, before: seq<Call>, r: Step,
    calls: seq<Call>, done: seq<Str>, x: Str, found: Str)
    requires Descends(a) && Midway(a, base, entry, c, end, before, r, calls, done, x, found) && x != []
             && !Settled(a, x, c, found)
    ensures Midway(a, base, entry, c, end, before, r, calls + CallsOf(a.ps, Reported(a, x, c), end),
            done + Reported(a, x, c),
              a.link(x), Noted(a, x, c, found))
  {
    MidwayCalls(a, base, entry, c, end, before, r, calls, done, x, found);
    MidwayDone(a.ps, done + Reported(a, x, c), r.ends);
    NotedState(a, c, x, found);
    GatherTurn(a, c, x, found);
    GatherShort(a, a.link(x), c);
    Assoc(done, Reported(a, x, c), Gather(a, a.link(x), c, Noted(a, x, c, found)).ends);
  }

  lemma MidwayEnds(a: Automaton, base: Str -> nat, entry: Str, c: nat, end: nat, before: seq<Call>, r: Step,
    calls: seq<Call>, done: seq<Str>, x: Str, found: Str)
    requires Descends(a) && Midway(a, base, entry, c, end, before, r, calls, done, x, found)
             && (x == [] || Settled(a, x, c, found))
    ensures calls + CallsOf(a.ps, Reported(a, x, c), end) == before + CallsOf(a.ps, r.ends, end)
    ensures r.state == Noted(a, x, c, found)
  {
    MidwayCalls(a, base, entry, c, end, before, r, calls, done, x, found);
  }

  lemma CollectedStop(a: Automaton, base: Str -> nat, entry: Str, c: nat, end: nat, cb: seq<Call> -> int,
    before: seq<Call>, r: Step, calls: seq<Call>, done: seq<Str>, x: Str, found: Str, ret: int, calls': seq<Call>)
    requires Descends(a) && Midway(a, base, entry, c, end, before, r, calls, done, x, found) && ret != 0
    requires calls' == calls + CallsOf(a.ps, Reported(a, x, c), end) && Stopped(cb, calls', ret) && |calls| < |calls'|
    requires x + [c] in a.ps && calls'[|calls'| - 1].strno == StrNo(a.ps, x + [c])
    ensures Collected(a, base, entry, r, end, cb, before, ret, calls', base(found))
  {
    MidwayCalls(a, base, entry, c, end, before, r, calls, done, x, found);
    MidwayStop(a, base, entry, c, end, before, r, calls, done, x, found);
  }

  lemma CollectedEnd(a: Automaton, base: Str -> nat, entry: Str, c: nat, end: nat, cb: seq<Call> -> int,
    before: seq<Call>, r: Step, calls: seq<Call>, done: seq<Str>, x: Str, found: Str, calls': seq<Call>)
    requires Descends(a) && Midway(a, base, entry, c, end, before, r, calls, done, x, found)
             && (x == [] || Settled(a, x, c, found))
    requires calls' == calls + CallsOf(a.ps, Reported(a, x, c), end) && Quiet(cb, calls', |calls'|)
    ensures Collected(a, base, entry, r, end, cb, before, 0, calls', base(Noted(a, x, c, found)))
  {
    MidwayEnds(a, base, entry, c, end, before, r, calls, done, x, found);
  }

  /**
   * The second loop: report every pattern on the chain, longest first, and find the new state,
   * following back links until neither can change any more.
   */
  method CollectMatches(tab: Table, s0: nat, sym: nat, end: nat, cb: seq<Call> -> int, calls0: seq<Call>,
    ghost a: Automaton, ghost nsyms: nat, ghost base: Str -> nat, ghost x0: Str)
    returns (ret: int, calls: seq<Call>, state: nat)
    requires Encodes(tab, a, nsyms, base) && Descends(a) && 0 < sym < nsyms && IsState(a.ps, x0)
    requires s0 == base(x0) && IsNode(a.ps, x0 + [sym]) && Quiet(cb, calls0, |calls0|)
    ensures Collected(a, base, x0 + [sym], Gather(a, x0, sym, []), end, cb, calls0, ret, calls, state)
  {
    var s, last := s0, false;
    ghost var x, found, done := x0, Noted(a, x0, sym, []), [];
    ghost var r := Gather(a, x0, sym, []);
    calls := calls0;
    state := NoteState(tab, s, sym, 0, a, nsyms, base, x, []);
    GatherBegins(a, base, sym, end, calls0, x0);
    while true
      invariant Midway(a, base, x0 + [sym], sym, end, calls0, r, calls, done, x, found)
      invariant s == base(x) && state == base(found) && Quiet(cb, calls, |calls|)
      decreases |x|
    {
      ghost var was := calls;
      ret, calls, state, last := LookAt(tab, s, sym, end, cb, calls, state, a, nsyms, base, x, found);
      if ret != 0 {
        CollectedStop(a, base, x0 + [sym], sym, end, cb, calls0, r, was, done, x, found, ret, calls);
        return;
      }
      RootIsZero(a.ps, base, x);
      if last || s == 0 {
        CollectedEnd(a, base, x0 + [sym], sym, end, cb, calls0, r, was, done, x, found, calls);
        return;
      }
      s := FollowBack(tab, s, a, nsyms, base, x);
      MidwayOn(a, base, x0 + [sym], sym, end, calls0, r, was, done, x, found);
      done, found, x := done + Reported(a, x, sym), Noted(a, x, sym, found), a.link(x);
    }
  }

  lemma BeginsAt(a: Automaton, c: nat, x: Str)
    requires Descends(a) && IsState(a.ps, x)
    ensures var r, now := Gather(a, x, c, []), Noted(a, x, c, []);
            && IsState(a.ps, now) && (now == [] || now == r.state)
            && (if now == [] then r.state != x + [c] && |r.state| <= |x| + 1 else now == x + [c])
  {
    GatherShort(a, x, c);
    GatherSound(a, x, c, []);
    if Noted(a, x, c, []) != [] {
      GatherKeeps(a, x, c, []);
    }
  }

  lemma GatherAgain(a: Automaton, c: nat, x: Str)
    requires Descends(a) && IsState(a.ps, x)
    ensures Gather(a, x, c, Noted(a, x, c, [])) == Gather(a, x, c, [])
  {
    assert Noted(a, x, c, Noted(a, x, c, [])) == Noted(a, x, c, []);
  }

  lemma GatherBegins(a: Automaton, base: Str -> nat, c: nat, end: nat, calls: seq<Call>, x: Str)
    requires Descends(a) && IsState(a.ps, x)
    ensures Midway(a, base, x + [c], c, end, calls, Gather(a, x, c, []), calls, [], x, Noted(a, x, c, []))
  {
    var r, now := Gather(a, x, c, []), Noted(a, x, c, []);
    BeginsAt(a, c, x);
    GatherSound(a, x, c, []);
    GatherAgain(a, c, x);
    assert calls + CallsOf(a.ps, [], end) == calls;
  }

  // ---- The scan ---------------------------------------------------------------------------------

  /** Nothing is reported, so the calls stand as they are. */
  lemma NothingEnds(a: Automaton, base: Str -> nat, entry: Str, r: Step, end: nat, cb: seq<Call> -> int,
      calls: seq<Call>, state: nat)
    requires r.ends == [] && state == base(r.state) && Quiet(cb, calls, |calls|)
    ensures Collected(a, base, entry, r, end, cb, calls, 0, calls, state)
  {
    assert calls + CallsOf(a.ps, r.ends, end) == calls;
  }

  /** A transition was found at y. */
  method TakeTransition(tab: Table, s: nat, sym: nat, end: nat, cb: seq<Call> -> int, calls0: seq<Call>,
    ghost a: Automaton, ghost nsyms: nat, ghost base: Str -> nat, ghost y: Str)
    returns (ret: int, calls: seq<Call>, state: nat)
    requires Encodes(tab, a, nsyms, base) && Descends(a) && 0 < sym < nsyms && IsState(a.ps, y)
    requires s == base(y) && IsNode(a.ps, y + [sym]) && Quiet(cb, calls0, |calls0|)
    ensures Collected(a, base, y + [sym], Enter(a, y, sym), end, cb, calls0, ret, calls, state)
  {
    assert ChildEncoded(tab, a, base, y, sym);
    var next := PTran(tab, s, sym);
    if !next.isMatch && !next.hasSuffix {
      ret, calls, state := 0, calls0, next.next;
      if !IsState(a.ps, y + [sym]) {
        LeafIsPattern(a.ps, y + [sym]);
      }
      NothingEnds(a, base, y + [sym], Step(y + [sym], []), end, cb, calls, state);
    } else {
      ret, calls, state := CollectMatches(tab, s, sym, end, cb, calls0, a, nsyms, base, y);
    }
  }

  /** One byte of the text, already mapped to its symbol. */
  method ScanSymbol(tab: Table, sym: nat, end: nat, cb: seq<Call> -> int, calls0: seq<Call>, state0: nat,
    ghost a: Automaton, ghost nsyms: nat, ghost base: Str -> nat, ghost x: Str)
    returns (ret: int, calls: seq<Call>, state: nat)
    requires Encodes(tab, a, nsyms, base) && Descends(a) && sym < nsyms && IsState(a.ps, x)
    requires state0 == base(x) && Quiet(cb, calls0, |calls0|)
    ensures Collected(a, base, Walk(a, x, sym) + [sym], StepOn(a, x, sym), end, cb, calls0, ret, calls, state)
  {
    if sym == 0 {
      ret, calls, state := 0, calls0, 0;
      NothingEnds(a, base, Walk(a, x, sym) + [sym], Step([], []), end, cb, calls, state);
    } else {
      var s, valid;
      ghost var y;
      s, valid, y := FindTransition(tab, state0, sym, a, nsyms, base, x);
      if valid {
        ret, calls, state := TakeTransition(tab, s, sym, end, cb, calls0, a, nsyms, base, y);
      } else {
        ret, calls, state := 0, calls0, s;
        NothingEnds(a, base, Walk(a, x, sym) + [sym], Step([], []), end, cb, calls, state);
      }
    }
  }

  /** symv and, when matching regardless of case, lc_map. */
  datatype Alphabet = Alphabet(symv: seq<nat>, lcMap: seq<nat>, caseless: bool)
  {
    predicate Valid(nsyms: nat) {
      && |symv| == 256 && |lcMap| == 256
      && (forall b | 0 <= b < 256 :: symv[b] < nsyms && lcMap[b] < 256)
    }

    function Symbol(b: nat): nat
      requires |symv| == 256 && |lcMap| == 256 && b < 256 && forall i | 0 <= i < 256 :: lcMap[i] < 256
    {
      symv[if caseless then lcMap[b] else b]
    }
  }

  function Symbols(alpha: Alphabet, nsyms: nat, text: seq<Byte>): (r: Str)
    requires alpha.Valid(nsyms)
    ensures |r| == |text|
  {
    seq(|text|, i requires 0 <= i < |text| => alpha.Symbol(text[i]))
  }


  /** How the scan stands after k symbols. */
  ghost predicate Scanning(a: Automaton, base: Str -> nat, x: Str, syms: Str, k: nat, cb: seq<Call> -> int,
      calls: seq<Call>, state: nat)
    requires Descends(a) && IsState(a.ps, x)
  {
    && k <= |syms|
    && calls == ScanCalls(a, x, syms[..k])
    && Quiet(cb, calls, |calls|)
    && state == base(StateAfter(a, x, syms[..k]))
  }

  /** Where the transition for the last symbol of a text leads. */
  ghost function Entry(a: Automaton, x: Str, text: Str): Str
    requires Descends(a) && IsState(a.ps, x) && text != []
  {
    var n := |text| - 1;
    Walk(a, StateAfter(a, x, text[..n]), text[n]) + [text[n]]
  }

  /** The callback stopped the scan at a symbol: the state written back is what was known by then. */
  ghost predicate Broke(a: Automaton, base: Str -> nat, x: Str, syms: Str, cb: seq<Call> -> int, ret: int,
      calls: seq<Call>, state: nat)
    requires Descends(a) && IsState(a.ps, x)
  {
    && Stopped(cb, calls, ret)
    && var last := calls[|calls| - 1];
    && 0 < last.end <= |syms| && last.strno < |a.ps|
    && state == base(StopState(StateAfter(a, x, syms[..last.end]), Entry(a, x, syms[..last.end]), a.ps[last.strno]))
  }

  lemma {:induction false} CallsPrefix(a: Automaton, x: Str, text: Str, k: nat)
    requires Descends(a) && IsState(a.ps, x) && k <= |text|
    ensures ScanCalls(a, x, text[..k]) <= ScanCalls(a, x, text)
    decreases |text| - k
  {
    if k == |text| {
      assert text[..k] == text;
    } else {
      CallsPrefix(a, x, text, k + 1);
      assert text[..k + 1][..k] == text[..k];
      ScanNext(a, x, text[..k + 1], text[..k], text[k]);
    }
  }

  lemma CallsOfStep(a: Automaton, x: Str, c: nat, end: nat)
    requires Descends(a) && IsState(a.ps, x)
    ensures CallsOf(a.ps, StepOn(a, x, c).ends, end) == CallsFor(a, x, c, end)
    ensures forall i | 0 <= i < |CallsFor(a, x, c, end)| :: CallsFor(a, x, c, end)[i].end == end
  {
    StepSound(a, x, c);
  }

  /** One symbol more. */
  lemma ScanningOn(a: Automaton, base: Str -> nat, x: Str, syms: Str, k: nat, cb: seq<Call> -> int, calls: seq<Call>,
    ret: int, calls': seq<Call>, state': nat, some: Str)
    requires Descends(a) && IsState(a.ps, x) && k < |syms| && some == syms[..k + 1]
             && calls == ScanCalls(a, x, syms[..k])
    requires var y := StateAfter(a, x, syms[..k]);
             Collected(a, base, Walk(a, y, syms[k]) + [syms[k]], StepOn(a, y, syms[k]), k + 1, cb, calls, ret, calls',
                       state')
    ensures calls' <= ScanCalls(a, x, syms)
    ensures if ret == 0 then Scanning(a, base, x, syms, k + 1, cb, calls', state')
            else Broke(a, base, x, syms, cb, ret, calls', state')
  {
    assert some[..k] == syms[..k];
    ScanNext(a, x, some, syms[..k], syms[k]);
    CallsOfStep(a, StateAfter(a, x, syms[..k]), syms[k], k + 1);
    CallsPrefix(a, x, syms, k + 1);
  }

  method ReadSymbol(alpha: Alphabet, text: seq<Byte>, k: nat, ghost nsyms: nat) returns (sym: nat)
    requires alpha.Valid(nsyms) && k < |text|
    ensures sym < nsyms && sym == Symbols(alpha, nsyms, text)[k]
  {
    sym := alpha.Symbol(text[k]);
  }

  /**
   * acism_lookup, on a table that encodes any automaton: unless the callback asks to stop, the calls
   * and the state written back are the automaton's.
   */
  method Lookup(tab: Table, alpha: Alphabet, text: seq<Byte>, cb: seq<Call> -> int, state0: nat,
    ghost a: Automaton, ghost nsyms: nat, ghost base: Str -> nat, ghost x: Str)
    returns (ret: int, calls: seq<Call>, state: nat)
    requires Encodes(tab, a, nsyms, base) && Descends(a) && alpha.Valid(nsyms) && IsState(a.ps, x) && state0 == base(x)
    ensures calls <= ScanCalls(a, x, Symbols(alpha, nsyms, text))
    ensures ret == 0 ==> calls == ScanCalls(a, x, Symbols(alpha, nsyms, text)) && Quiet(cb, calls, |calls|)
    ensures ret == 0 ==> state == base(StateAfter(a, x, Symbols(alpha, nsyms, text)))
    ensures ret != 0 ==> Broke(a, base, x, Symbols(alpha, nsyms, text), cb, ret, calls, state)
  {
    ghost var syms := Symbols(alpha, nsyms, text);
    ret, calls, state := 0, [], state0;
    var k := 0;
    while k < |text|
      invariant ret == 0 && k <= |text| && Scanning(a, base, x, syms, k, cb, calls, state)
    {
      var sym := ReadSymbol(alpha, text, k, nsyms);
      ghost var was := calls;
      ret, calls, state := ScanSymbol(tab, sym, k + 1, cb, calls, state, a, nsyms, base, StateAfter(a, x, syms[..k]));
      ScanningOn(a, base, x, syms, k, cb, was, ret, calls, state, syms[..k + 1]);
      if ret != 0 {
        return;
      }
      k := k + 1;
    }
    assert syms[..k] == syms;
  }

  /**
   * acism_lookup over right links.  `before` is the text scanned by earlier calls that carried the state
   * here.  The calls are exactly those due for this text, a part of them if the callback asks to stop.
   */
  method LookupRight(tab: Table, alpha: Alphabet, text: seq<Byte>, cb: seq<Call> -> int, state0: nat,
    ghost a: Automaton, ghost nsyms: nat, ghost base: Str -> nat, ghost before: Str)
    returns (ret: int, calls: seq<Call>, state: nat)
    requires Encodes(tab, a, nsyms, base) && Right(a) && Proper(a.ps) && alpha.Valid(nsyms)
    requires state0 == base(LongestState(a.ps, before))
    ensures calls <= Reports(a.ps, before, Symbols(alpha, nsyms, text))
    ensures ret == 0 ==> calls == Reports(a.ps, before, Symbols(alpha, nsyms, text)) && Quiet(cb, calls, |calls|)
    ensures ret == 0 ==> state == base(LongestState(a.ps, before + Symbols(alpha, nsyms, text)))
    ensures ret != 0 ==> Stopped(cb, calls, ret)
  {
    RightDescends(a);
    ret, calls, state := Lookup(tab, alpha, text, cb, state0, a, nsyms, base, LongestState(a.ps, before));
    ScanRight(a, before, Symbols(alpha, nsyms, text));
  }

  /** Two scans that carry the state across report what one scan of the joined text does. */
  method LookupInTwo(tab: Table, alpha: Alphabet, text1: seq<Byte>, text2: seq<Byte>,
    ghost a: Automaton, ghost nsyms: nat, ghost base: Str -> nat)
    returns (calls1: seq<Call>, calls2: seq<Call>)
    requires Encodes(tab, a, nsyms, base) && Right(a) && Proper(a.ps) && alpha.Valid(nsyms)
    ensures calls1 + Shifted(calls2, |text1|) == Reports(a.ps, [], Symbols(alpha, nsyms, text1 + text2))
  {
    ghost var first := Symbols(alpha, nsyms, text1);
    EmptyTextState(a.ps, base);
    var ret, state;
    ret, calls1, state := LookupRight(tab, alpha, text1, _ => 0, 0, a, nsyms, base, []);
    NeverStopped(_ => 0, calls1, ret);
    assert [] + first == first;
    ret, calls2, state := LookupRight(tab, alpha, text2, _ => 0, state, a, nsyms, base, first);
    NeverStopped(_ => 0, calls2, ret);
    ReportsInTwo(a.ps, alpha, nsyms, text1, text2);
  }

  lemma EmptyTextState(ps: seq<Str>, base: Str -> nat)
    requires Numbered(ps, base)
    ensures base(LongestState(ps, [])) == 0
  {
    assert LongestState(ps, []) == [];
  }

  lemma ReportsInTwo(ps: seq<Str>, alpha: Alphabet, nsyms: nat, text1: seq<Byte>, text2: seq<Byte>)
    requires alpha.Valid(nsyms)
    ensures var a, b := Symbols(alpha, nsyms, text1), Symbols(alpha, nsyms, text2);
            Reports(ps, [], a) + Shifted(Reports(ps, a, b), |text1|)
                == Reports(ps, [], Symbols(alpha, nsyms, text1 + text2))
  {
    var a, b := Symbols(alpha, nsyms, text1), Symbols(alpha, nsyms, text2);
    SymbolsJoin(alpha, nsyms, text1, text2);
    ReportsSplit(ps, [], a, b);
    assert [] + a == a;
  }

  lemma NeverStopped(cb: seq<Call> -> int, calls: seq<Call>, ret: int)
    requires ret != 0 ==> Stopped(cb, calls, ret)
    requires forall cs :: cb(cs) == 0
    ensures ret == 0
  {
  }

  lemma SymbolsJoin(alpha: Alphabet, nsyms: nat, a: seq<Byte>, b: seq<Byte>)
    requires alpha.Valid(nsyms)
    ensures Symbols(alpha, nsyms, a + b) == Symbols(alpha, nsyms, a) + Symbols(alpha, nsyms, b)
  {
  }
}
