// A database written with cdb_make_add or cdb_make_put, finished, and read back (contrib/cdb).
module CdbRoundTrip {
  import opened Common
  import opened CdbFormat
  import opened CdbWrite
  import opened CdbMake
  import opened CdbReplace
  import opened CdbFinish
  import opened CdbFind
  import opened CdbScan
  import opened CdbSeek

  datatype Pair = Pair(key: seq<Byte>, val: seq<Byte>)

  ghost predicate Small(ps: seq<Pair>) {
    forall i | 0 <= i < |ps| :: |ps[i].key| < TWO32 && |ps[i].val| < TWO32
  }

  ghost function Entries(ps: seq<Pair>): (es: seq<Entry>)
    requires Small(ps)
    ensures |es| == |ps|
  {
    seq(|ps|, i requires 0 <= i < |ps| => MakeEntry(ps[i].key, ps[i].val, true))
  }

  /** Bytes of data and tables for these pairs. */
  function FileSize(ps: seq<Pair>): nat {
    if ps == [] then HEADER else FileSize(ps[..|ps| - 1]) + 24 + |ps[|ps| - 1].key| + |ps[|ps| - 1].val|
  }

  /** The value first given to a key. */
  function FirstValue(ps: seq<Pair>, key: seq<Byte>): Option<seq<Byte>> {
    if ps == [] then None else if ps[0].key == key then Some(ps[0].val) else FirstValue(ps[1..], key)
  }

  /** All values given to a key, in order. */
  function AllGiven(ps: seq<Pair>, key: seq<Byte>): seq<seq<Byte>> {
    if ps == [] then [] else (if ps[0].key == key then [ps[0].val] else []) + AllGiven(ps[1..], key)
  }

  lemma {:induction false} MatchesGiven(ps: seq<Pair>, key: seq<Byte>)
    requires Small(ps)
    ensures Values(Matches(Entries(ps), key)) == AllGiven(ps, key)
    ensures FirstValue(ps, key) == if Matches(Entries(ps), key) == [] then None
            else Some(Matches(Entries(ps), key)[0].val)
  {
    if ps != [] {
      MatchesGiven(ps[1..], key);
      assert Entries(ps)[1..] == Entries(ps[1..]);
      ValuesNext(Entries(ps)[0], Matches(Entries(ps[1..]), key));
    }
  }

  lemma ValuesNext(e: Entry, rest: seq<Entry>)
    ensures Values([e] + rest) == [e.val] + Values(rest) && [] + rest == rest
  {
  }

  lemma {:induction false} FileSizeRises(ps: seq<Pair>, i: nat)
    requires i <= |ps|
    ensures FileSize(ps[..i]) <= FileSize(ps)
    decreases |ps| - i
  {
    if i < |ps| {
      FileSizeRises(ps, i + 1);
      assert ps[..i + 1][..i] == ps[..i];
    } else {
      assert ps[..i] == ps;
    }
  }

  /** All pairs added one after the other. */
  method AddAll(m: Maker, ps: seq<Pair>)
    requires Valid(m, []) && Small(ps) && FileSize(ps) < TWO32
    modifies m
    ensures Valid(m, Entries(ps)) && m.dpos + 16 * m.rcnt == FileSize(ps)
  {
    assert m.dpos == HEADER + |Data([])|;
    for i := 0 to |ps|
      invariant Valid(m, Entries(ps[..i])) && m.dpos + 16 * m.rcnt == FileSize(ps[..i])
    {
      FileSizeRises(ps, i + 1);
      assert ps[..i + 1][..i] == ps[..i];
      var hval := CdbHash(ps[i].key);
      var r;
      ghost var es;
      r, es := Append(m, hval, ps[i].key, ps[i].val, Entries(ps[..i]));
      assert Entries(ps[..i + 1]) == Entries(ps[..i]) + [MakeEntry(ps[i].key, ps[i].val, true)];
    }
    assert ps[..|ps|] == ps;
  }

  /**
   * A database written by adds alone and finished: cdb_find returns the value first added for a
   * key, and 0 for a key that was never added.
   */
  method BuildAndFind(start: seq<Byte>, ps: seq<Pair>, key: seq<Byte>) returns (r: int, val: seq<Byte>)
    requires Small(ps) && FileSize(ps) < TWO32 && |start| < TWO32
    ensures FirstValue(ps, key).None? ==> r == 0
    ensures FirstValue(ps, key).Some? ==> r == 1 && val == FirstValue(ps, key).value
  {
    var m := Build(start, ps);
    ghost var b := BaseOf(m.file, ps);
    var cdb := new Cdb(m.file, 0);
    r := cdb.Find(key, b);
    MatchesGiven(ps, key);
    val := if r == 1 then cdb.mem[cdb.vpos..cdb.vpos + cdb.vlen] else [];
  }

  /** A finished file whose records are these pairs. */
  ghost predicate Written(file: seq<Byte>, ps: seq<Pair>)
    requires Small(ps)
  {
    HEADER <= |file| < TWO32 && exists b :: IsFile(file, b) && b.es == Entries(ps)
  }

  ghost function BaseOf(file: seq<Byte>, ps: seq<Pair>): (b: Base)
    requires Small(ps) && Written(file, ps)
    ensures IsFile(file[0..], b) && b.es == Entries(ps)
  {
    assert file[0..] == file;
    var b :| IsFile(file, b) && b.es == Entries(ps);
    b
  }

  method Build(start: seq<Byte>, ps: seq<Pair>) returns (m: Maker)
    requires Small(ps) && FileSize(ps) < TWO32 && |start| < TWO32
    ensures fresh(m) && Written(m.file, ps)
  {
    m := new Maker(start);
    StartValid(m);
    AddAll(m, ps);
    FinishCheckExact(m.dpos, m.rcnt);
    var r;
    ghost var hpos, tabs, dists;
    r, hpos, tabs, dists := Finish(m, Entries(ps));
    assert IsFile(m.file, Base(Entries(ps), hpos, tabs, dists));
  }

  /** All values of a key come back, in the order they were added. */
  method BuildAndFindAll(start: seq<Byte>, ps: seq<Pair>, key: seq<Byte>) returns (vals: seq<seq<Byte>>)
    requires Small(ps) && FileSize(ps) < TWO32 && |start| < TWO32
    ensures vals == AllGiven(ps, key)
  {
    var m := Build(start, ps);
    ghost var b := BaseOf(m.file, ps);
    var cdb := new Cdb(m.file, 0);
    vals := AllValues(cdb, key, b);
    MatchesGiven(ps, key);
  }

  /** All pairs come back one by one, in the order they were added, and then the data ends. */
  method BuildAndList(start: seq<Byte>, ps: seq<Pair>) returns (keys: seq<seq<Byte>>, vals: seq<seq<Byte>>)
    requires Small(ps) && FileSize(ps) < TWO32 && |start| < TWO32
    ensures |keys| == |vals| == |ps| && forall i | 0 <= i < |ps| :: keys[i] == ps[i].key && vals[i] == ps[i].val
  {
    var m := Build(start, ps);
    ghost var b := BaseOf(m.file, ps);
    var cdb := new Cdb(m.file, 0);
    keys, vals := AllRecords(cdb, b);
  }

  // ---- Puts in any mode ----------------------------------------------------------------------------------

  /** A call of cdb_make_put. */
  datatype PutOp = PutOp(key: seq<Byte>, val: seq<Byte>, mode: PutMode)

  ghost predicate SmallOps(ops: seq<PutOp>) {
    forall i | 0 <= i < |ops| :: |ops[i].key| < TWO32 && |ops[i].val| < TWO32
  }

  /** Room for all records ever put, and their slots. */
  function PutSize(ops: seq<PutOp>): nat {
    if ops == [] then HEADER else PutSize(ops[..|ops| - 1]) + 24 + |ops[|ops| - 1].key| + |ops[|ops| - 1].val|
  }

  /** The values of a key in an ordered multimap, after one more put. */
  function GivenNext(before: seq<seq<Byte>>, op: PutOp, key: seq<Byte>): seq<seq<Byte>> {
    if op.key != key then before
    else
      match op.mode
      case Replace => [op.val]
      case Replace0 => [op.val]
      case Insert => if before == [] then [op.val] else before
      case _ => before + [op.val]
  }

  function Given(ops: seq<PutOp>, key: seq<Byte>): seq<seq<Byte>> {
    if ops == [] then [] else GivenNext(Given(ops[..|ops| - 1], key), ops[|ops| - 1], key)
  }

  /** What each put answers: whether the key was there, which a plain add does not ask. */
  function Answers(ops: seq<PutOp>): (r: seq<int>)
    ensures |r| == |ops|
  {
    if ops == [] then []
    else
      var n, op := |ops| - 1, ops[|ops| - 1];
      Answers(ops[..n]) + [if Given(ops[..n], op.key) != [] && !op.mode.Add? then 1 else 0]
  }

  /** The live records are the ordered multimap of the puts. */
  ghost predicate Holding(es: seq<Entry>, ops: seq<PutOp>) {
    forall key {:trigger Given(ops, key)} :: Values(Matches(es, key)) == Given(ops, key)
  }

  lemma {:induction false} PutSizeRises(ops: seq<PutOp>, i: nat)
    requires i <= |ops|
    ensures PutSize(ops[..i]) <= PutSize(ops)
    decreases |ops| - i
  {
    if i < |ops| {
      PutSizeRises(ops, i + 1);
      assert ops[..i + 1][..i] == ops[..i];
    } else {
      assert ops[..i] == ops;
    }
  }

  /** One put is one step of the multimap. */
  lemma HoldingNext(es0: seq<Entry>, es: seq<Entry>, ops: seq<PutOp>, op: PutOp, ops': seq<PutOp>)
    requires Holding(es0, ops) && ops' == ops + [op] && |op.key| < TWO32 && |op.val| < TWO32
    requires PutMeans(op.mode, es0, es, op.key, op.val)
    ensures Holding(es, ops')
  {
    assert ops'[..|ops|] == ops;
    forall key {:trigger Given(ops', key)} ensures Values(Matches(es, key)) == Given(ops', key) {
      assert Given(ops, key) == Values(Matches(es0, key));
      if key == op.key {
        var before := Matches(es0, key);
        ValuesLast(before, MakeEntry(op.key, op.val, true));
      }
    }
  }

  lemma ValuesLast(before: seq<Entry>, e: Entry)
    ensures Values(before + [e]) == Values(before) + [e.val] && Values([e]) == [e.val]
  {
  }

  /** All puts one after the other. */
  method PutAll(m: Maker, ops: seq<PutOp>) returns (answers: seq<int>, ghost es: seq<Entry>)
    requires Valid(m, []) && SmallOps(ops) && PutSize(ops) < TWO32
    modifies m
    ensures Valid(m, es) && Holding(es, ops) && answers == Answers(ops) && m.dpos + 16 * m.rcnt <= PutSize(ops)
  {
    answers, es := [], [];
    assert m.dpos == HEADER + |Data([])|;
    assert ops[..0] == [];
    for i := 0 to |ops|
      invariant Valid(m, es) && Holding(es, ops[..i]) && answers == Answers(ops[..i])
      invariant m.dpos + 16 * m.rcnt <= PutSize(ops[..i])
    {
      PutSizeRises(ops, i + 1);
      assert ops[..i + 1][..i] == ops[..i];
      assert ops[..i + 1] == ops[..i] + [ops[i]];
      var r;
      r, es := PutOne(m, ops[..i], ops[i], es);
      answers := answers + [r];
    }
    assert ops[..|ops|] == ops;
  }

  method PutOne(m: Maker, ghost ops: seq<PutOp>, op: PutOp, ghost es0: seq<Entry>)
    returns (r: int, ghost es: seq<Entry>)
    requires Valid(m, es0) && Holding(es0, ops) && |op.key| < TWO32 && |op.val| < TWO32
    requires m.dpos + 8 + |op.key| + |op.val| < TWO32
    modifies m
    ensures Valid(m, es) && Holding(es, ops + [op])
    ensures r == if Given(ops, op.key) != [] && !op.mode.Add? then 1 else 0
    ensures m.dpos <= old(m.dpos) + 8 + |op.key| + |op.val| && m.rcnt <= old(m.rcnt) + 1
  {
    ghost var mid;
    r, mid, es := Put(m, op.key, op.val, op.mode, es0);
    HasMatches(es0, op.key);
    assert Given(ops, op.key) == Values(Matches(es0, op.key));
    HoldingNext(es0, es, ops, op, ops + [op]);
  }

  /** A finished file whose live records are these. */
  ghost predicate FileOf(file: seq<Byte>, b: Base, ops: seq<PutOp>) {
    HEADER <= |file| < TWO32 && IsFile(file[0..], b) && Holding(b.es, ops)
  }

  method BuildByPuts(start: seq<Byte>, ops: seq<PutOp>) returns (m: Maker, answers: seq<int>, ghost b: Base)
    requires SmallOps(ops) && PutSize(ops) < TWO32 && |start| < TWO32
    ensures fresh(m) && FileOf(m.file, b, ops) && answers == Answers(ops)
  {
    m := new Maker(start);
    StartValid(m);
    ghost var es;
    answers, es := PutAll(m, ops);
    FinishCheckExact(m.dpos, m.rcnt);
    var r;
    ghost var hpos, tabs, dists;
    r, hpos, tabs, dists := Finish(m, es);
    b := Base(es, hpos, tabs, dists);
    assert m.file[0..] == m.file;
  }

  /**
   * After any puts, in any modes, and a finish the database is an ordered multimap: every put
   * answered as it would there, cdb_find returns the key's first value or 0, and cdb_findnext all
   * its values in order.
   */
  method PutsAndFinds(start: seq<Byte>, ops: seq<PutOp>, key: seq<Byte>)
    returns (answers: seq<int>, r: int, val: seq<Byte>, vals: seq<seq<Byte>>)
    requires SmallOps(ops) && PutSize(ops) < TWO32 && |start| < TWO32
    ensures answers == Answers(ops) && vals == Given(ops, key)
    ensures if Given(ops, key) == [] then r == 0 else r == 1 && val == Given(ops, key)[0]
  {
    var m;
    ghost var b;
    m, answers, b := BuildByPuts(start, ops);
    var cdb := new Cdb(m.file, 0);
    assert Given(ops, key) == Values(Matches(b.es, key));
    r := cdb.Find(key, b);
    val := if r == 1 then cdb.mem[cdb.vpos..cdb.vpos + cdb.vlen] else [];
    vals := AllValues(cdb, key, b);
  }
}
