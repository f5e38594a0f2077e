// What the Aho-Corasick matcher of contrib/aho-corasick is for, on strings of symbols: the
// states of the automaton, the patterns ending at each position, and the calls a scan makes.
module AcSpec {

  /** Symbols are numbered from 1; 0 stands for a byte that is in no pattern. */
  type Str = seq<nat>

  /** Patterns are strings of symbols; an empty one is never reported. */
  predicate Proper(ps: seq<Str>) {
    forall i | 0 <= i < |ps| :: 0 !in ps[i]
  }

  /** A node of the trie: a prefix of some pattern. */
  ghost predicate IsNode(ps: seq<Str>, s: Str) {
    exists i :: 0 <= i < |ps| && s <= ps[i]
  }

  /** A node with children has a state of its own; so has the root. */
  ghost predicate IsState(ps: seq<Str>, s: Str) {
    s == [] || exists i :: 0 <= i < |ps| && s < ps[i]
  }

  predicate IsSuffix(u: Str, s: Str) {
    |u| <= |s| && s[|s| - |u|..] == u
  }

  lemma SuffixOfTail(u: Str, s: Str)
    requires IsSuffix(u, s) && |u| < |s|
    ensures IsSuffix(u, s[1..])
  {
    assert s[1..][|s[1..]| - |u|..] == s[|s| - |u|..];
  }

  lemma TailIsSuffix(u: Str, s: Str)
    requires |s| > 0 && IsSuffix(u, s[1..])
    ensures IsSuffix(u, s)
  {
    assert s[1..][|s[1..]| - |u|..] == s[|s| - |u|..];
  }

  /** Suffixes of one string are suffixes of each other, in order of length. */
  lemma SuffixesNest(u: Str, v: Str, s: Str)
    requires IsSuffix(u, s) && IsSuffix(v, s) && |u| <= |v|
    ensures IsSuffix(u, v)
    ensures |u| == |v| ==> u == v
  {
    assert v[|v| - |u|..] == s[|s| - |u|..];
  }

  lemma SuffixTransitive(u: Str, v: Str, s: Str)
    requires IsSuffix(u, v) && IsSuffix(v, s)
    ensures IsSuffix(u, s)
  {
    assert s[|s| - |u|..] == v[|v| - |u|..];
  }

  /** u + [c] ends t + [c] exactly when u ends t. */
  lemma SuffixAppend(u: Str, t: Str, c: nat)
    ensures IsSuffix(u + [c], t + [c]) <==> IsSuffix(u, t)
  {
    if |u| <= |t| {
      assert (t + [c])[|t| + 1 - (|u| + 1)..] == t[|t| - |u|..] + [c];
      assert u == (u + [c])[..|u|];
      assert t[|t| - |u|..] == (t[|t| - |u|..] + [c])[..|u|];
    }
  }

  /** The longest suffix of t that is a state. */
  ghost function LongestState(ps: seq<Str>, t: Str): (s: Str)
    ensures IsState(ps, s) && IsSuffix(s, t)
    ensures forall u | IsState(ps, u) && IsSuffix(u, t) :: |u| <= |s|
  {
    if IsState(ps, t) then t
    else
      var s := LongestState(ps, t[1..]);
      TailIsSuffix(s, t);
      assert forall u | IsState(ps, u) && IsSuffix(u, t) :: |u| <= |s| by {
        forall u | IsState(ps, u) && IsSuffix(u, t) ensures |u| <= |s| {
          assert |u| == |t| ==> u == t;
          SuffixOfTail(u, t);
        }
      }
      s
  }

  lemma LongestStateIs(ps: seq<Str>, t: Str, s: Str)
    requires IsState(ps, s) && IsSuffix(s, t)
    requires forall u | IsState(ps, u) && IsSuffix(u, t) :: |u| <= |s|
    ensures LongestState(ps, t) == s
  {
    SuffixesNest(s, LongestState(ps, t), t);
  }

  /** The back link of a state: the longest state among its proper suffixes. */
  ghost function Back(ps: seq<Str>, s: Str): (b: Str)
    requires s != []
    ensures IsState(ps, b) && |b| < |s| && IsSuffix(b, s)
    ensures forall u | IsState(ps, u) && IsSuffix(u, s) && |u| < |s| :: IsSuffix(u, b)
  {
    var b := LongestState(ps, s[1..]);
    TailIsSuffix(b, s);
    assert forall u | IsState(ps, u) && IsSuffix(u, s) && |u| < |s| :: IsSuffix(u, b) by {
      forall u | IsState(ps, u) && IsSuffix(u, s) && |u| < |s| ensures IsSuffix(u, b) {
        SuffixOfTail(u, s);
        SuffixesNest(u, b, s);
      }
    }
    b
  }

  /** Some pattern is a proper suffix of s. */
  ghost predicate HasSuffixPattern(ps: seq<Str>, s: Str) {
    exists i :: 0 <= i < |ps| && 0 < |ps[i]| < |s| && IsSuffix(ps[i], s)
  }

  /** The patterns that end t, longest first. */
  ghost function Ends(ps: seq<Str>, t: Str): seq<Str> {
    if t == [] then [] else (if t in ps then [t] else []) + Ends(ps, t[1..])
  }

  /** Equal patterns share one number, the last one's. */
  ghost function StrNo(ps: seq<Str>, p: Str): (k: nat)
    requires p in ps
    ensures k < |ps| && ps[k] == p
    ensures forall i | k < i < |ps| :: ps[i] != p
  {
    if ps[|ps| - 1] == p then |ps| - 1 else StrNo(ps[..|ps| - 1], p)
  }

  datatype Call = Call(strno: nat, end: nat)

  /** The calls for the patterns in `ends`, at one end offset. */
  ghost function CallsAt(ps: seq<Str>, ends: seq<Str>, end: nat): seq<Call>
    requires forall i | 0 <= i < |ends| :: ends[i] in ps
  {
    seq(|ends|, i requires 0 <= i < |ends| => Call(StrNo(ps, ends[i]), end))
  }

  lemma {:induction false} EndsArePatterns(ps: seq<Str>, t: Str)
    ensures forall i | 0 <= i < |Ends(ps, t)| :: Ends(ps, t)[i] in ps
  {
    if t != [] {
      EndsArePatterns(ps, t[1..]);
    }
  }

  /** The calls for scanning `text` after `before`: for each end offset, the patterns ending there. */
  ghost function Reports(ps: seq<Str>, before: Str, text: Str): seq<Call> {
    if text == [] then []
    else
      EndsArePatterns(ps, before + text);
      Reports(ps, before, text[..|text| - 1]) + CallsAt(ps, Ends(ps, before + text), |text|)
  }

  // ---- Ends and Reports are exact --------------------------------------------------------

  lemma {:induction false} EndsAreSuffixes(ps: seq<Str>, t: Str, p: Str)
    ensures p in Ends(ps, t) <==> p in ps && p != [] && IsSuffix(p, t)
  {
    if t != [] {
      EndsAreSuffixes(ps, t[1..], p);
      if p in ps && IsSuffix(p, t) {
        assert |p| == |t| ==> p == t;
        if |p| < |t| {
          SuffixOfTail(p, t);
        }
      }
      if p in ps && IsSuffix(p, t[1..]) {
        TailIsSuffix(p, t);
      }
    }
  }

  /** The pattern of the call ends the text at the call's offset, and no later pattern equals it. */
  ghost predicate Occurs(ps: seq<Str>, before: Str, text: Str, call: Call) {
    && 1 <= call.end <= |text|
    && call.strno < |ps|
    && StrNo(ps, ps[call.strno]) == call.strno
    && ps[call.strno] != [] && IsSuffix(ps[call.strno], before + text[..call.end])
  }

  /** Every call is an occurrence and every occurrence is called. */
  lemma {:induction false} ReportsExact(ps: seq<Str>, before: Str, text: Str, call: Call)
    ensures call in Reports(ps, before, text) <==> Occurs(ps, before, text, call)
  {
    if text != [] {
      var init := text[..|text| - 1];
      ReportsExact(ps, before, init, call);
      EndsArePatterns(ps, before + text);
      assert call.end <= |init| ==> init[..call.end] == text[..call.end];
      assert text[..|text|] == text;
      CallsAtExact(ps, before + text, |text|, call);
    }
  }

  lemma CallsAtExact(ps: seq<Str>, t: Str, end: nat, call: Call)
    requires forall i | 0 <= i < |Ends(ps, t)| :: Ends(ps, t)[i] in ps
    ensures call in CallsAt(ps, Ends(ps, t), end) <==>
              && call.end == end
              && call.strno < |ps|
              && StrNo(ps, ps[call.strno]) == call.strno
              && ps[call.strno] != [] && IsSuffix(ps[call.strno], t)
  {
    var ends := Ends(ps, t);
    if call in CallsAt(ps, ends, end) {
      var i :| 0 <= i < |ends| && call == Call(StrNo(ps, ends[i]), end);
      EndsAreSuffixes(ps, t, ends[i]);
    }
    if call.end == end && call.strno < |ps| && StrNo(ps, ps[call.strno]) == call.strno
       && ps[call.strno] != [] && IsSuffix(ps[call.strno], t) {
      EndsAreSuffixes(ps, t, ps[call.strno]);
      var i :| 0 <= i < |ends| && ends[i] == ps[call.strno];
      assert CallsAt(ps, ends, end)[i] == call;
    }
  }

  // ---- Their order ------------------------------------------------------------------------

  lemma {:induction false} EndsShrink(ps: seq<Str>, t: Str)
    ensures forall i | 0 <= i < |Ends(ps, t)| :: |Ends(ps, t)[i]| <= |t|
    ensures forall i, j | 0 <= i < j < |Ends(ps, t)| :: |Ends(ps, t)[i]| > |Ends(ps, t)[j]|
  {
    if t != [] {
      EndsShrink(ps, t[1..]);
    }
  }

  /** One call comes before another: at a lower offset, or for a longer pattern. */
  ghost predicate Before(ps: seq<Str>, a: Call, b: Call) {
    a.end < b.end || (a.end == b.end && a.strno < |ps| && b.strno < |ps| && |ps[a.strno]| > |ps[b.strno]|)
  }

  /** Calls come in increasing order of end offset, at one offset longest pattern first; so none is made twice. */
  lemma {:induction false} ReportsOrdered(ps: seq<Str>, before: Str, text: Str)
    ensures forall i | 0 <= i < |Reports(ps, before, text)| :: Reports(ps, before, text)[i].end <= |text|
    ensures forall i, j | 0 <= i < j < |Reports(ps, before, text)| ::
            Before(ps, Reports(ps, before, text)[i], Reports(ps, before, text)[j])
  {
    if text != [] {
      var init := text[..|text| - 1];
      ReportsOrdered(ps, before, init);
      EndsArePatterns(ps, before + text);
      EndsShrink(ps, before + text);
      var last := CallsAt(ps, Ends(ps, before + text), |text|);
      forall i, j | 0 <= i < j < |last| ensures Before(ps, last[i], last[j]) {
        assert |Ends(ps, before + text)[i]| > |Ends(ps, before + text)[j]|;
      }
    }
  }

  // ---- Splitting the text -----------------------------------------------------------------

  ghost function Shifted(calls: seq<Call>, offset: nat): seq<Call> {
    seq(|calls|, i requires 0 <= i < |calls| => Call(calls[i].strno, calls[i].end + offset))
  }

  lemma ShiftedJoin(a: seq<Call>, b: seq<Call>, offset: nat)
    ensures Shifted(a + b, offset) == Shifted(a, offset) + Shifted(b, offset)
  {
  }

  /** The calls at the end of b, shifted past a, are those at the end of a + b. */
  lemma LastShifted(ps: seq<Str>, before: Str, a: Str, b: Str)
    requires b != []
    ensures Reports(ps, before, a + b)
            == Reports(ps, before, a + b[..|b| - 1]) + Shifted(LastCalls(ps, before + a, b), |a|)
  {
    assert (a + b)[..|a + b| - 1] == a + b[..|b| - 1];
    assert before + (a + b) == (before + a) + b;
    EndsArePatterns(ps, (before + a) + b);
    assert Shifted(LastCalls(ps, before + a, b), |a|) == LastCalls(ps, before, a + b);
  }

  /** The calls for the patterns ending where the text ends. */
  ghost function LastCalls(ps: seq<Str>, before: Str, text: Str): seq<Call> {
    EndsArePatterns(ps, before + text);
    CallsAt(ps, Ends(ps, before + text), |text|)
  }

  /** Scanning a text in two parts, carrying the first part along, makes the same calls. */
  lemma {:induction false} ReportsSplit(ps: seq<Str>, before: Str, a: Str, b: Str)
    ensures Reports(ps, before, a + b) == Reports(ps, before, a) + Shifted(Reports(ps, before + a, b), |a|)
  {
    if b == [] {
      assert a + b == a;
    } else {
      var init := b[..|b| - 1];
      var first, last := Reports(ps, before + a, init), LastCalls(ps, before + a, b);
      ReportsSplit(ps, before, a, init);
      LastShifted(ps, before, a, b);
      assert Reports(ps, before + a, b) == first + last;
      ShiftedJoin(first, last, |a|);
    }
  }
}
