// The search loop of findrec and cdb_make_put (contrib/cdb/cdb_make.c).
module CdbReplace {
  import opened Common
  import opened CdbFormat
  import opened CdbIndex
  import opened CdbWrite
  import opened CdbMake
  import opened CdbRemove
  import opened CdbPut

  datatype PutMode = Add | Replace | Insert | Warn | Replace0

  /** What the search has made of the entries: the same ones, those without the key, or the key's blanked. */
  ghost predicate Became(mode: PutMode, es0: seq<Entry>, es: seq<Entry>, key: seq<Byte>) {
    match mode
    case Replace => RemoveKey(es, key) == RemoveKey(es0, key)
    case Replace0 => LiveOf(RemoveKey(es, key)) == LiveOf(RemoveKey(es0, key))
    case _ => es == es0
  }

  /** Settled, or still as before the search when nothing had to be looked at. */
  ghost predicate Ready(m: Maker, es: seq<Entry>, sought: bool)
    reads m
  {
    if sought then Settled(m, es) else Valid(m, es)
  }

  /** Where the search stands: matches left are among the first c records of the list. */
  ghost predicate Searching(mode: PutMode, es0: seq<Entry>, es: seq<Entry>, key: seq<Byte>, ret: int, c: nat) {
    && AllSound(es)
    && OwnList(es, key, Hash(key) % 256) && NoneBehind(es, key, Hash(key) % 256, c)
    && Became(mode, es0, es, key)
    && (ret == 0 ==> es == es0) && (ret != 0 ==> ret == 1 && HasKey(es0, key))
  }

  lemma RemovedKeeps(es: seq<Entry>, n: nat, key: seq<Byte>)
    requires n < |es| && IsMatch(es[n], key)
    ensures RemoveKey(Without(es, n), key) == RemoveKey(es, key)
    ensures |LiveOf(Without(es, n))| == |LiveOf(es)| - 1
  {
    var a, e, b := es[..n], es[n], es[n + 1..];
    assert es == a + [e] + b;
    RemoveAround(a, e, b, es, key);
    RemoveJoin(a, b, Without(es, n), key);
    LiveJoin(a + [e], b);
    LiveJoin(a, [e]);
    LiveOne(e);
    LiveJoin(a, b);
  }

  lemma FilledKeeps(es: seq<Entry>, n: nat, key: seq<Byte>)
    requires n < |es| && IsMatch(es[n], key) && 8 <= |es[n].bytes| < TWO32
    ensures LiveOf(RemoveKey(AfterFill(es, n), key)) == LiveOf(RemoveKey(es, key))
  {
    var a, e, b, rest := es[..n], es[n], es[n + 1..], AfterFill(es, n);
    var ra, rb := RemoveKey(a, key), RemoveKey(b, key);
    assert es == a + [e] + b;
    RemoveAround(a, e, b, es, key);
    assert RemoveKey(es, key) == ra + rb;
    if b == [] {
      assert rest == a && ra + rb == ra;
    } else {
      assert rest == a + [Blanked(e)] + b;
      BlankAround(a, Blanked(e), b, rest, key);
    }
  }

  /** A record that is not live adds nothing. */
  lemma BlankAround(a: seq<Entry>, d: Entry, b: seq<Entry>, rest: seq<Entry>, key: seq<Byte>)
    requires rest == a + [d] + b && !d.live
    ensures LiveOf(RemoveKey(rest, key)) == LiveOf(RemoveKey(a, key) + RemoveKey(b, key))
  {
    var ra, rb := RemoveKey(a, key), RemoveKey(b, key);
    RemoveAround(a, d, b, rest, key);
    LiveAround(ra, d, rb, RemoveKey(rest, key));
    LiveJoin(ra, rb);
    assert LiveOf(ra) + OneLive(d) == LiveOf(ra);
  }

  lemma FilledCount(es: seq<Entry>, n: nat)
    requires n < |es| && es[n].live && 8 <= |es[n].bytes| < TWO32
    ensures |LiveOf(AfterFill(es, n))| == |LiveOf(es)| - 1
  {
    var a, e, b, rest := es[..n], es[n], es[n + 1..], AfterFill(es, n);
    assert es == a + [e] + b;
    LiveAround(a, e, b, es);
    if b == [] {
      assert rest == a;
    } else {
      assert rest == a + [Blanked(e)] + b;
      LiveAround(a, Blanked(e), b, rest);
    }
  }

  lemma LiveAround(a: seq<Entry>, e: Entry, b: seq<Entry>, es: seq<Entry>)
    requires es == a + [e] + b
    ensures LiveOf(es) == LiveOf(a) + OneLive(e) + LiveOf(b)
  {
    LiveJoin(a + [e], b);
    LiveJoin(a, [e]);
    LiveOne(e);
  }

  lemma SoundWithout(es: seq<Entry>, n: nat)
    requires AllSound(es) && n < |es|
    ensures AllSound(Without(es, n))
  {
    var rest := Without(es, n);
    forall i {:trigger Sound(rest[i])} | 0 <= i < |rest| ensures Sound(rest[i]) {
      assert Sound(es[if i < n then i else i + 1]);
    }
  }

  lemma SoundFilled(es: seq<Entry>, n: nat)
    requires AllSound(es) && n < |es| && 8 <= |es[n].bytes| < TWO32
    ensures AllSound(AfterFill(es, n))
  {
    var rest := AfterFill(es, n);
    forall i {:trigger Sound(rest[i])} | 0 <= i < |rest| ensures Sound(rest[i]) {
      assert Sound(es[i]);
    }
  }

  /** A match found now was there from the start. */
  lemma FoundBefore(mode: PutMode, es0: seq<Entry>, es: seq<Entry>, n: nat, key: seq<Byte>, ret: int)
    requires n < |es| && IsMatch(es[n], key) && (ret == 0 ==> es == es0) && (ret != 0 ==> HasKey(es0, key))
    ensures HasKey(es0, key)
  {
  }

  /** What stays of the blocks while one record is taken out. */
  ghost predicate SameBlocks(bs: seq<Block>, bs': seq<Block>, k: nat, i: nat) {
    && |bs'| == |bs| && k < |bs| && i <= |bs'[k]|
    && forall j | k < j < |bs| :: |bs'[j]| == |bs[j]|
  }

  /** CDB_FIND_REMOVE on a match. */
  method TakeOut(m: Maker, t: nat, k: nat, i: nat, rlen: nat, ghost es: seq<Entry>, ghost n: nat)
    requires Settled(m, es) && n < |es| && t < 256 && InList(es[n], t) && rlen == |es[n].bytes| && es[n].live
    requires k < |m.rec[t]| && i < |m.rec[t][k]| && m.rec[t][k][i].rpos == Offset(es, n)
             && Place(es, t, n) == |Flat(m.rec[t][k + 1..])| + i
    modifies m
    ensures Settled(m, Without(es, n)) && m.dpos <= old(m.dpos)
    ensures SameBlocks(old(m.rec)[t], m.rec[t], k, i) && |Flat(m.rec[t][k + 1..])| == |Flat(old(m.rec)[t][k + 1..])|
  {
    ghost var was := m.rec;
    SoundNonEmpty(es);
    SoundWithout(es, n);
    RemovedKeeps(es, n, es[n].key);
    RemoveRecord(m, m.rec[t][k][i].rpos, rlen, es, n);
    IndexedRemoved(was, es, n, t, k, i, m.rec);
    MovedShape(was[t], k, Offset(es, n), rlen);
    ghost var mid := m.rec[t];
    m.rec := m.rec[t := Dropped(m.rec[t], k, i)];
    m.rcnt := m.rcnt - 1;
    assert m.rec[t][k + 1..] == mid[k + 1..];
  }

  /** CDB_FIND_FILL0 on a match. */
  method FillOut(m: Maker, t: nat, k: nat, i: nat, rlen: nat, ghost es: seq<Entry>, ghost n: nat)
    requires Settled(m, es) && n < |es| && t < 256 && InList(es[n], t) && rlen == |es[n].bytes| && es[n].live
    requires k < |m.rec[t]| && i < |m.rec[t][k]| && m.rec[t][k][i].rpos == Offset(es, n)
             && Place(es, t, n) == |Flat(m.rec[t][k + 1..])| + i
    modifies m
    ensures 8 <= |es[n].bytes| < TWO32 && Settled(m, AfterFill(es, n)) && m.dpos <= old(m.dpos)
    ensures SameBlocks(old(m.rec)[t], m.rec[t], k, i) && |Flat(m.rec[t][k + 1..])| == |Flat(old(m.rec)[t][k + 1..])|
  {
    assert Sound(es[n]);
    SoundNonEmpty(es);
    ZerofillRecord(m, m.rec[t][k][i].rpos, rlen, es, n);
    SoundFilled(es, n);
    FilledCount(es, n);
    IndexedFilled(m.rec, es, n, t, k, i);
    ghost var mid := m.rec[t];
    m.rec := m.rec[t := Dropped(m.rec[t], k, i)];
    m.rcnt := m.rcnt - 1;
    assert m.rec[t][k + 1..] == mid[k + 1..];
  }

  /** The buffer goes to the file before any record is read back. */
  method Settle(m: Maker, sought: bool, ghost es: seq<Entry>)
    requires Ready(m, es, sought)
    modifies m`file, m`fpos, m`pending
    ensures Settled(m, es)
  {
    if !sought {
      m.Flush();
      assert m.file[..m.dpos] == m.file[..m.fpos];
    }
  }

  /** One record with the right hash: compare its key and act on a match. */
  method Examine(m: Maker, t: nat, k: nat, i: nat, key: seq<Byte>, mode: PutMode, ret: int, ghost es0: seq<Entry>,
      ghost es: seq<Entry>)
    returns (ret': int, stop: bool, ghost es': seq<Entry>)
    requires Settled(m, es) && t == Hash(key) % 256 && k < |m.rec[t]| && i < |m.rec[t][k]|
    requires Searching(mode, es0, es, key, ret, |Flat(m.rec[t][k + 1..])| + i + 1)
    modifies m
    ensures Settled(m, es') && m.dpos <= old(m.dpos)
    ensures SameBlocks(old(m.rec)[t], m.rec[t], k, i)
    ensures !stop ==> Searching(mode, es0, es', key, ret', |Flat(m.rec[t][k + 1..])| + i)
    ensures stop ==> ret' == 1 && HasKey(es0, key) && es' == es0 && !mode.Replace? && !mode.Replace0?
  {
    ret', stop, es' := ret, false, es;
    ghost var n := EntryOfRec(es, m.rec[t], t, k, i);
    var r := MatchEntry(m.file, m.dpos, m.rec[t][k][i].rpos, key, es, n);
    assert Sound(es[n]);
    if r == 0 {
      PassedOver(es, key, t, n);
    } else {
      FoundBefore(mode, es0, es, n, key, ret);
      ret' := 1;
      match mode {
        case Replace =>
          SearchRemoved(es, key, t, n);
          RemovedKeeps(es, n, key);
          TakeOut(m, t, k, i, r, es, n);
          es' := Without(es, n);
        case Replace0 =>
          FillOut(m, t, k, i, r, es, n);
          SearchFilled(es, key, t, n);
          FilledKeeps(es, n, key);
          es' := AfterFill(es, n);
        case _ =>
          stop := true;
      }
    }
  }

  /** One element of the list: those with another hash are passed over without looking. */
  method Visit(m: Maker, t: nat, k: nat, i: nat, key: seq<Byte>, hval: nat, mode: PutMode, sought: bool, ret: int,
      ghost es0: seq<Entry>, ghost es: seq<Entry>)
    returns (sought': bool, ret': int, stop: bool, ghost es': seq<Entry>)
    requires Ready(m, es, sought) && hval == Hash(key) && t == hval % 256 && k < |m.rec[t]| && i < |m.rec[t][k]|
    requires Searching(mode, es0, es, key, ret, |Flat(m.rec[t][k + 1..])| + i + 1)
    modifies m
    ensures Ready(m, es', sought') && m.dpos <= old(m.dpos)
    ensures SameBlocks(old(m.rec)[t], m.rec[t], k, i)
    ensures !stop ==> Searching(mode, es0, es', key, ret', |Flat(m.rec[t][k + 1..])| + i)
    ensures stop ==> ret' == 1 && HasKey(es0, key) && es' == es0 && !mode.Replace? && !mode.Replace0?
  {
    if m.rec[t][k][i].hval != hval {
      sought', ret', stop, es' := sought, ret, false, es;
      ghost var n := EntryOfRec(es, m.rec[t], t, k, i);
      assert Sound(es[n]);
      PassedOver(es, key, t, n);
    } else {
      Settle(m, sought, es);
      sought' := true;
      ret', stop, es' := Examine(m, t, k, i, key, mode, ret, es0, es);
    }
  }

  /** One block, newest record first. */
  method VisitBlock(m: Maker, t: nat, k: nat, key: seq<Byte>, hval: nat, mode: PutMode, sought: bool, ret: int,
      ghost es0: seq<Entry>, ghost es: seq<Entry>)
    returns (sought': bool, ret': int, stop: bool, ghost es': seq<Entry>)
    requires Ready(m, es, sought) && hval == Hash(key) && t == hval % 256 && k < |m.rec[t]|
    requires Searching(mode, es0, es, key, ret, |Flat(m.rec[t][k..])|)
    modifies m
    ensures Ready(m, es', sought') && m.dpos <= old(m.dpos) && |m.rec[t]| == |old(m.rec)[t]|
    ensures !stop ==> Searching(mode, es0, es', key, ret', |Flat(m.rec[t][k + 1..])|)
    ensures stop ==> ret' == 1 && HasKey(es0, key) && es' == es0 && !mode.Replace? && !mode.Replace0?
  {
    sought', ret', stop, es' := sought, ret, false, es;
    FlatHead(m.rec[t], k);
    var i := |m.rec[t][k]|;
    while i > 0
      invariant Ready(m, es', sought') && m.dpos <= old(m.dpos) && |m.rec[t]| == |old(m.rec)[t]|
                && 0 <= i <= |m.rec[t][k]|
      invariant !stop && Searching(mode, es0, es', key, ret', |Flat(m.rec[t][k + 1..])| + i)
    {
      i := i - 1;
      sought', ret', stop, es' := Visit(m, t, k, i, key, hval, mode, sought', ret', es0, es');
      if stop {
        return;
      }
    }
  }

  lemma FlatHead(bs: seq<Block>, k: nat)
    requires k < |bs|
    ensures |Flat(bs[k..])| == |Flat(bs[k + 1..])| + |bs[k]|
  {
    assert bs[k..][0] == bs[k] && bs[k..][1..] == bs[k + 1..];
  }

  /**
   * findrec: whether the key is there; in the replacing modes all its records are taken out or
   * blanked, otherwise nothing changes.
   */
  method FindRec(m: Maker, key: seq<Byte>, hval: nat, mode: PutMode, ghost es0: seq<Entry>)
    returns (ret: int, ghost es: seq<Entry>)
    requires Valid(m, es0) && hval == Hash(key)
    modifies m
    ensures Valid(m, es) && m.dpos <= old(m.dpos) && m.rcnt <= old(m.rcnt)
    ensures ret == if HasKey(es0, key) then 1 else 0
    ensures SearchLeft(mode, es0, es, key)
  {
    var t, sought, stop := hval % 256, false, false;
    ret, es := 0, es0;
    SoundOwnList(es, key);
    SearchStarts(es, key, t);
    var k := 0;
    assert m.rec[t][0..] == m.rec[t];
    while k < |m.rec[t]| && !stop
      invariant Ready(m, es, sought) && m.dpos <= old(m.dpos) && k <= |m.rec[t]|
      invariant !stop ==> Searching(mode, es0, es, key, ret, |Flat(m.rec[t][k..])|)
      invariant stop ==> ret == 1 && HasKey(es0, key) && es == es0 && !mode.Replace? && !mode.Replace0?
      decreases |m.rec[t]| - k, !stop
    {
      sought, ret, stop, es := VisitBlock(m, t, k, key, hval, mode, sought, ret, es0, es);
      k := k + 1;
    }
    if !stop {
      SearchDone(mode, es0, es, key, ret);
    }
    RemoveLive(es0, key);
    if sought {
      m.fpos := m.dpos;
    }
  }

  lemma SearchDone(mode: PutMode, es0: seq<Entry>, es: seq<Entry>, key: seq<Byte>, ret: int)
    requires Searching(mode, es0, es, key, ret, 0)
    ensures ret == if HasKey(es0, key) then 1 else 0
    ensures !HasKey(es, key)
    ensures mode.Replace? ==> es == RemoveKey(es0, key)
    ensures mode.Replace0? ==> LiveOf(es) == LiveOf(RemoveKey(es0, key))
    ensures !mode.Replace? && !mode.Replace0? ==> es == es0
  {
    SearchEnds(es, key, Hash(key) % 256);
    NothingToRemove(es, key);
  }

  // ---- What a replaced key looks like ------------------------------------------------------------------

  /** The live records with a key, in order. */
  ghost function Matches(es: seq<Entry>, key: seq<Byte>): seq<Entry> {
    if es == [] then [] else (if IsMatch(es[0], key) then [es[0]] else []) + Matches(es[1..], key)
  }

  lemma {:induction false} MatchesOfLive(es: seq<Entry>, key: seq<Byte>)
    ensures Matches(LiveOf(es), key) == Matches(es, key)
  {
    if es != [] {
      MatchesOfLive(es[1..], key);
      if es[0].live {
        assert LiveOf(es)[0] == es[0] && LiveOf(es)[1..] == LiveOf(es[1..]);
      } else {
        assert LiveOf(es) == LiveOf(es[1..]);
      }
    }
  }

  lemma {:induction false} NoMatches(es: seq<Entry>, key: seq<Byte>)
    requires !HasKey(es, key)
    ensures Matches(es, key) == []
  {
    if es != [] {
      assert !IsMatch(es[0], key);
      forall n | 0 <= n < |es[1..]| ensures !IsMatch(es[1..][n], key) {
        assert es[1..][n] == es[n + 1];
      }
      NoMatches(es[1..], key);
    }
  }

  lemma {:induction false} MatchesSnoc(es: seq<Entry>, e: Entry, es': seq<Entry>, key: seq<Byte>)
    requires es' == es + [e]
    ensures Matches(es', key) == Matches(es, key) + if IsMatch(e, key) then [e] else []
  {
    if es == [] {
      assert es' == [e] && es'[1..] == [];
    } else {
      assert es'[0] == es[0] && es'[1..] == es[1..] + [e];
      MatchesSnoc(es[1..], e, es'[1..], key);
    }
  }

  /** Other keys keep their records. */
  lemma {:induction false} OthersKept(es: seq<Entry>, key: seq<Byte>, other: seq<Byte>)
    requires other != key
    ensures Matches(RemoveKey(es, key), other) == Matches(es, other)
  {
    if es != [] {
      OthersKept(es[1..], key, other);
      var rest := RemoveKey(es[1..], key);
      if IsMatch(es[0], key) {
        assert RemoveKey(es, key) == rest;
      } else {
        assert RemoveKey(es, key)[0] == es[0] && RemoveKey(es, key)[1..] == rest;
      }
    }
  }

  lemma {:induction false} RemoveLive(es: seq<Entry>, key: seq<Byte>)
    ensures |LiveOf(RemoveKey(es, key))| <= |LiveOf(es)|
  {
    if es != [] {
      RemoveLive(es[1..], key);
      var rest := RemoveKey(es[1..], key);
      if IsMatch(es[0], key) {
        assert RemoveKey(es, key) == rest;
      } else {
        assert RemoveKey(es, key)[0] == es[0] && RemoveKey(es, key)[1..] == rest;
      }
    }
  }

  lemma HasMatches(es: seq<Entry>, key: seq<Byte>)
    ensures HasKey(es, key) <==> Matches(es, key) != []
  {
    if HasKey(es, key) {
      var n :| 0 <= n < |es| && IsMatch(es[n], key);
      MatchThere(es, key, n);
    } else {
      NoMatches(es, key);
    }
  }

  lemma {:induction false} MatchThere(es: seq<Entry>, key: seq<Byte>, n: nat)
    requires n < |es| && IsMatch(es[n], key)
    ensures Matches(es, key) != []
  {
    if n > 0 {
      MatchThere(es[1..], key, n - 1);
    }
  }

  /** The records of a key after a put that succeeded: in the replacing modes the new one alone. */
  ghost function MatchesAfter(before: seq<Entry>, mode: PutMode, e: Entry): seq<Entry> {
    match mode
    case Replace => [e]
    case Replace0 => [e]
    case Insert => if before == [] then [e] else before
    case _ => before + [e]
  }

  /** What a put that succeeded does to the records of every key. */
  ghost predicate PutMeans(mode: PutMode, es0: seq<Entry>, es: seq<Entry>, key: seq<Byte>, val: seq<Byte>)
    requires |key| < TWO32 && |val| < TWO32
  {
    && Matches(es, key) == MatchesAfter(Matches(es0, key), mode, MakeEntry(key, val, true))
    && forall other | other != key :: Matches(es, other) == Matches(es0, other)
  }

  /** What the search of a put leaves. */
  ghost predicate SearchLeft(mode: PutMode, es0: seq<Entry>, mid: seq<Entry>, key: seq<Byte>) {
    && (mode.Replace? ==> mid == RemoveKey(es0, key) && !HasKey(mid, key))
    && (mode.Replace0? ==> LiveOf(mid) == LiveOf(RemoveKey(es0, key)) && !HasKey(mid, key))
    && (!mode.Replace? && !mode.Replace0? ==> mid == es0)
  }

  lemma LeftOthers(mode: PutMode, es0: seq<Entry>, mid: seq<Entry>, key: seq<Byte>, other: seq<Byte>)
    requires SearchLeft(mode, es0, mid, key) && other != key
    ensures Matches(mid, other) == Matches(es0, other)
  {
    OthersKept(es0, key, other);
    MatchesOfLive(mid, other);
    MatchesOfLive(RemoveKey(es0, key), other);
  }

  lemma PutMeaning(mode: PutMode, es0: seq<Entry>, mid: seq<Entry>, es: seq<Entry>, key: seq<Byte>, val: seq<Byte>)
    requires |key| < TWO32 && |val| < TWO32 && SearchLeft(mode, es0, mid, key)
    requires es == if mode.Insert? && HasKey(es0, key) then mid else mid + [MakeEntry(key, val, true)]
    ensures PutMeans(mode, es0, es, key, val)
  {
    var e := MakeEntry(key, val, true);
    HasMatches(es0, key);
    HasMatches(mid, key);
    MatchesSnoc(mid, e, mid + [e], key);
    forall other | other != key ensures Matches(es, other) == Matches(es0, other) {
      LeftOthers(mode, es0, mid, key, other);
      MatchesSnoc(mid, e, mid + [e], other);
    }
  }

  /** cdb_make_add, with what it does to the end of the data and to the count. */
  method Append(m: Maker, hval: nat, key: seq<Byte>, val: seq<Byte>, ghost mid: seq<Entry>)
    returns (r: int, ghost es: seq<Entry>)
    requires Valid(m, mid) && hval == Hash(key) && |key| < TWO32 && |val| < TWO32 && m.dpos + 8 < TWO32
    modifies m
    ensures Valid(m, es)
    ensures if HEADER + |Data(mid)| + 8 + |key| + |val| < TWO32
            then r == 0 && es == mid + [MakeEntry(key, val, true)] else r == -1 && es == mid
    ensures m.dpos == old(m.dpos) + (if r == 0 then 8 + |key| + |val| else 0)
            && m.rcnt == old(m.rcnt) + (if r == 0 then 1 else 0)
  {
    ghost var e := MakeEntry(key, val, true);
    r := CdbMake.Add(m, hval, key, val, mid);
    es := if r == 0 then mid + [e] else mid;
    DataJoin(mid, [e]);
    DataOne(e);
    LiveJoin(mid, [e]);
    LiveOne(e);
  }

  /** The answer of a put and the entries it leaves, by what the search left. */
  ghost predicate PutAnswer(mode: PutMode, es0: seq<Entry>, mid: seq<Entry>, es: seq<Entry>, key: seq<Byte>,
      val: seq<Byte>, r: int)
    requires |key| < TWO32 && |val| < TWO32
  {
    if mode.Insert? && HasKey(es0, key) then
      r == 1 && es == mid
    else if HEADER + |Data(mid)| + 8 + |key| + |val| < TWO32 then
      r == (if HasKey(es0, key) && !mode.Add? then 1 else 0) && es == mid + [MakeEntry(key, val, true)]
    else
      r == -1 && es == mid
  }

  method SearchAndAppend(m: Maker, key: seq<Byte>, val: seq<Byte>, mode: PutMode, ghost es0: seq<Entry>)
    returns (r: int, ghost mid: seq<Entry>, ghost es: seq<Entry>)
    requires Valid(m, es0) && |key| < TWO32 && |val| < TWO32 && m.dpos + 8 < TWO32
    modifies m
    ensures Valid(m, es) && m.dpos <= old(m.dpos) + 8 + |key| + |val| && m.rcnt <= old(m.rcnt) + 1
    ensures SearchLeft(mode, es0, mid, key) && PutAnswer(mode, es0, mid, es, key, val, r)
            && HEADER + |Data(mid)| <= old(m.dpos)
  {
    var hval := CdbHash(key);
    r, mid := 0, es0;
    if !mode.Add? {
      r, mid := FindRec(m, key, hval, mode, es0);
      if r == 1 && mode.Insert? {
        assert m.dpos == HEADER + |Data(mid)|;
        return 1, mid, mid;
      }
    }
    var found := r;
    assert m.dpos == HEADER + |Data(mid)|;
    r, es := Append(m, hval, key, val, mid);
    if r == 0 {
      r := found;
    }
  }

  /**
   * cdb_make_put.  `mid` is what the search left; the new record is added to that unless it does
   * not fit, or the mode is insert and the key was there.
   */
  method Put(m: Maker, key: seq<Byte>, val: seq<Byte>, mode: PutMode, ghost es0: seq<Entry>)
    returns (r: int, ghost mid: seq<Entry>, ghost es: seq<Entry>)
    requires Valid(m, es0) && |key| < TWO32 && |val| < TWO32 && m.dpos + 8 < TWO32
    modifies m
    ensures Valid(m, es) && m.dpos <= old(m.dpos) + 8 + |key| + |val| && m.rcnt <= old(m.rcnt) + 1
    ensures SearchLeft(mode, es0, mid, key) && PutAnswer(mode, es0, mid, es, key, val, r)
            && HEADER + |Data(mid)| <= old(m.dpos)
    ensures r == -1 || PutMeans(mode, es0, es, key, val)
  {
    r, mid, es := SearchAndAppend(m, key, val, mode, es0);
    if r != -1 {
      PutMeaning(mode, es0, mid, es, key, val);
    }
  }
}
