// The framing of fuzzy storage commands over TCP (src/fuzzy_storage.c): two length bytes, low one
// first, then that many bytes, at least one and at most a bufferful.
module FuzzyFrames {
  import opened Common

  /** FUZZY_TCP_BUFFER_LENGTH */
  const BUFFER: nat := 8192

  /** A stream taken apart: whole frames, the bytes left over, and whether those start with a bad length. */
  datatype Parsed = Parsed(frames: seq<seq<Byte>>, rest: seq<Byte>, bad: bool)

  function Length(s: seq<Byte>): nat
    requires |s| >= 2
  {
    var low: nat := s[0];
    var high: nat := s[1];
    low + 256 * high
  }

  function Parse(s: seq<Byte>): Parsed {
    if |s| < 2 then Parsed([], s, false)
    else if Length(s) == 0 || Length(s) > BUFFER then Parsed([], s, true)
    else if |s| < 2 + Length(s) then Parsed([], s, false)
    else Parse(s[2 + Length(s)..]).(frames := [s[2..2 + Length(s)]] + Parse(s[2 + Length(s)..]).frames)
  }

  /** What the rest of a good stream looks like, and how many frames it can have had. */
  lemma {:induction false} ParseBounds(s: seq<Byte>)
    ensures 3 * |Parse(s).frames| + |Parse(s).rest| <= |s|
    ensures var rest := Parse(s).rest;
            !Parse(s).bad ==> |rest| < 2 || (0 < Length(rest) <= BUFFER && |rest| < 2 + Length(rest))
    decreases |s|
  {
    if |s| >= 2 && 0 < Length(s) <= BUFFER && |s| >= 2 + Length(s) {
      ParseBounds(s[2 + Length(s)..]);
    }
  }

  /** How a stream starts: too short to tell, with a bad length, or with a whole frame. */
  predicate Waits(s: seq<Byte>) {
    |s| < 2 || (0 < Length(s) <= BUFFER && |s| < 2 + Length(s))
  }

  predicate StartsBad(s: seq<Byte>) {
    |s| >= 2 && (Length(s) == 0 || Length(s) > BUFFER)
  }

  /** More of a stream continues where the first part left off; after a bad length nothing changes. */
  lemma {:induction false} ParseMore(s: seq<Byte>, t: seq<Byte>, st: seq<Byte>)
    requires st == s + t
    ensures Continues(Parse(s), t, Parse(st))
    decreases |s|
  {
    if Waits(s) {
      assert Parse(s) == Parsed([], s, false);
      assert [] + Parse(st).frames == Parse(st).frames;
    } else if StartsBad(s) {
      SameStart(s, t, st);
    } else {
      var n := 2 + Length(s);
      ParseMore(s[n..], t, st[n..]);
      MoreBehindFrame(s, t, st, n);
    }
  }

  lemma SameStart(s: seq<Byte>, t: seq<Byte>, st: seq<Byte>)
    requires st == s + t && |s| >= 2
    ensures Length(st) == Length(s)
  {
    assert st[0] == s[0] && st[1] == s[1];
  }

  lemma MoreBehindFrame(s: seq<Byte>, t: seq<Byte>, st: seq<Byte>, n: nat)
    requires st == s + t && !Waits(s) && !StartsBad(s) && n == 2 + Length(s) <= |s|
    requires Continues(Parse(s[n..]), t, Parse(st[n..]))
    ensures Continues(Parse(s), t, Parse(st))
  {
    SameStart(s, t, st);
    ParseFrame(s);
    ParseFrame(st);
    assert st[2..n] == s[2..n];
    FramesAssoc([s[2..n]], Parse(s[n..]), t, Parse(st[n..]));
  }

  /** q is what p becomes when t follows. */
  ghost predicate Continues(p: Parsed, t: seq<Byte>, q: Parsed) {
    if p.bad then q.bad && q.frames == p.frames
    else var m := Parse(p.rest + t); q == Parsed(p.frames + m.frames, m.rest, m.bad)
  }

  lemma FramesAssoc(first: seq<seq<Byte>>, p: Parsed, t: seq<Byte>, q: Parsed)
    requires Continues(p, t, q)
    ensures Continues(p.(frames := first + p.frames), t, q.(frames := first + q.frames))
  {
    assert forall m: seq<seq<Byte>> :: first + (p.frames + m) == (first + p.frames) + m;
  }

  /** One frame taken off the front. */
  lemma ParseFrame(s: seq<Byte>)
    requires |s| >= 2 && 0 < Length(s) <= BUFFER && |s| >= 2 + Length(s)
    ensures var p := Parse(s[2 + Length(s)..]); Parse(s) == Parsed([s[2..2 + Length(s)]] + p.frames, p.rest, p.bad)
  {
  }

  // ---- The length state of a session -----------------------------------------------------------------

  /** cur_frame_state: nothing read, one length byte read, or the whole length known. */
  ghost predicate IsState(state: nat) {
    || state == 0
    || 0x8000 <= state < 0x8100
    || 0xC000 < state <= 0xC000 + BUFFER
  }

  /** The length bytes that are already in the state. */
  ghost function Taken(state: nat): (r: seq<Byte>)
    requires IsState(state)
    ensures |r| <= 2
  {
    if state == 0 then []
    else if state < 0xC000 then [state - 0x8000]
    else [(state - 0xC000) % 256, (state - 0xC000) / 256]
  }

  lemma TakenLength(state: nat, s: seq<Byte>)
    requires 0xC000 < state <= 0xC000 + BUFFER
    ensures |Taken(state) + s| == |s| + 2 && Length(Taken(state) + s) == state - 0xC000
  {
    assert (Taken(state) + s)[0] == (state - 0xC000) % 256;
    assert (Taken(state) + s)[1] == (state - 0xC000) / 256;
  }

  /** The state after the first length byte. */
  function OneTaken(b: Byte): (state: nat)
    ensures 0x8000 <= state < 0x8100
  {
    var x: nat := b;
    0x8000 + x
  }

  /** The length, from the state after its first byte and the second one. */
  function WholeLength(state: nat, b: Byte): nat {
    var x: nat := b;
    state % 256 + 256 * x
  }

  // ---- Frames on the wire ----------------------------------------------------------------------------

  /** A frame with its two length bytes. */
  ghost function Wire(frame: seq<Byte>): (r: seq<Byte>)
    requires 0 < |frame| <= BUFFER
    ensures |r| == |frame| + 2
  {
    [|frame| % 256, |frame| / 256] + frame
  }

  ghost predicate Sized(frames: seq<seq<Byte>>) {
    forall i | 0 <= i < |frames| :: 0 < |frames[i]| <= BUFFER
  }

  ghost function Stream(frames: seq<seq<Byte>>): seq<Byte>
    requires Sized(frames)
  {
    if frames == [] then [] else Stream(frames[..|frames| - 1]) + Wire(frames[|frames| - 1])
  }

  /** Everything received is the frames delivered, the length bytes in the state, and the rest. */
  ghost predicate Follows(received: seq<Byte>, frames: seq<seq<Byte>>, state: nat, rest: seq<Byte>) {
    IsState(state) && Sized(frames) && received == Stream(frames) + Taken(state) + rest
  }

  /** Behind the frames delivered comes a length that no frame can have. */
  ghost predicate Breaks(received: seq<Byte>, frames: seq<seq<Byte>>) {
    Sized(frames) && exists junk :: StartsBad(junk) && received == Stream(frames) + junk
  }

  lemma ByteTaken(received: seq<Byte>, frames: seq<seq<Byte>>, s: seq<Byte>, rest: seq<Byte>)
    requires Follows(received, frames, 0, s) && s != [] && rest == s[1..]
    ensures Follows(received, frames, OneTaken(s[0]), rest)
  {
    assert Taken(OneTaken(s[0])) + rest == s;
  }

  lemma LengthTaken(received: seq<Byte>, frames: seq<seq<Byte>>, state: nat, s: seq<Byte>, rest: seq<Byte>, len: nat)
    requires Follows(received, frames, state, s) && 0x8000 <= state < 0x8100 && s != [] && rest == s[1..]
             && len == WholeLength(state, s[0])
    ensures 0 < len <= BUFFER ==> Follows(received, frames, 0xC000 + len, rest)
    ensures len == 0 || len > BUFFER ==> Breaks(received, frames)
  {
    var all := Taken(state) + s;
    assert all[0] == state - 0x8000 && all[1] == s[0];
    assert received == Stream(frames) + all;
    if 0 < len <= BUFFER {
      assert len % 256 == state - 0x8000 && len / 256 == s[0];
      assert Taken(0xC000 + len) + rest == all;
    } else {
      assert StartsBad(all);
    }
  }

  lemma FrameTaken(received: seq<Byte>, frames: seq<seq<Byte>>, state: nat, s: seq<Byte>, frame: seq<Byte>,
      rest: seq<Byte>)
    requires Follows(received, frames, state, s) && state > 0xC000 && |s| >= state - 0xC000
    requires frame == s[..state - 0xC000] && rest == s[state - 0xC000..]
    ensures Follows(received, frames + [frame], 0, rest)
  {
    assert (frames + [frame])[..|frames|] == frames;
    assert Taken(state) + s == Wire(frame) + rest;
  }

  lemma Arrived(received: seq<Byte>, data: seq<Byte>, frames: seq<seq<Byte>>, state: nat, rest: seq<Byte>)
    requires Follows(received, frames, state, rest)
    ensures Follows(received + data, frames, state, rest + data)
  {
  }

  // ---- The same as taking the whole stream apart at once ---------------------------------------------------

  lemma WireParses(frame: seq<Byte>, t: seq<Byte>)
    requires 0 < |frame| <= BUFFER
    ensures Parse(Wire(frame) + t) == Behind([frame], Parse(t))
  {
    var s := Wire(frame) + t;
    assert s[0] == |frame| % 256 && s[1] == |frame| / 256;
    assert Length(s) == |frame|;
    assert s[2..2 + |frame|] == frame && s[2 + |frame|..] == t;
  }

  /** The frames first and then what Parse makes of the rest. */
  ghost function Behind(frames: seq<seq<Byte>>, p: Parsed): Parsed {
    Parsed(frames + p.frames, p.rest, p.bad)
  }

  lemma BehindTwice(a: seq<seq<Byte>>, f: seq<Byte>, p: Parsed, all: seq<seq<Byte>>)
    requires all == a + [f]
    ensures Behind(a, Behind([f], p)) == Behind(all, p)
  {
    assert a + ([f] + p.frames) == all + p.frames;
  }

  lemma {:induction false} StreamParses(frames: seq<seq<Byte>>, t: seq<Byte>, st: seq<Byte>)
    requires Sized(frames) && st == Stream(frames) + t
    ensures Parse(st) == Behind(frames, Parse(t))
  {
    if frames == [] {
      assert st == t;
    } else {
      var n := |frames| - 1;
      var init, last := frames[..n], frames[n];
      var wt := Wire(last) + t;
      assert st == Stream(init) + wt;
      StreamParses(init, wt, st);
      WireParses(last, t);
      BehindTwice(init, last, Parse(t), frames);
    }
  }

  /** Where more bytes are needed, the frames delivered are all there are. */
  lemma WaitingParsed(received: seq<Byte>, frames: seq<seq<Byte>>, state: nat, rest: seq<Byte>)
    requires Follows(received, frames, state, rest) && Stuck(state, rest)
    ensures Parse(received) == Parsed(frames, Taken(state) + rest, false)
  {
    var t := Taken(state) + rest;
    assert received == Stream(frames) + t;
    StreamParses(frames, t, received);
    if state > 0xC000 {
      TakenLength(state, rest);
    }
    assert Parse(t) == Parsed([], t, false);
  }

  /** After a bad length the frames delivered are those before it. */
  lemma BrokenParsed(received: seq<Byte>, frames: seq<seq<Byte>>)
    requires Breaks(received, frames)
    ensures Parse(received).bad && Parse(received).frames == frames
  {
    var junk :| StartsBad(junk) && received == Stream(frames) + junk;
    StreamParses(frames, junk, received);
  }

  /** More bytes are needed to go on. */
  ghost predicate Stuck(state: nat, rest: seq<Byte>) {
    (state < 0xC000 ==> rest == []) && (state > 0xC000 ==> |rest| < state - 0xC000)
  }

  /** Each frame takes at least three bytes of the stream. */
  lemma {:induction false} StreamGrows(a: seq<seq<Byte>>, b: seq<seq<Byte>>)
    requires Sized(b) && a <= b
    ensures Sized(a) && |Stream(a)| + 3 * (|b| - |a|) <= |Stream(b)|
    decreases |b|
  {
    if |a| < |b| {
      StreamGrows(a, b[..|b| - 1]);
    } else {
      assert a == b;
    }
  }
}
