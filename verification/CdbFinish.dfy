// cdb_make_finish of contrib/cdb/cdb_make.c: the hash tables behind the data, then the table of
// contents in front.
module CdbFinish {
  import opened Common
  import opened CdbFormat
  import opened CdbIndex
  import opened CdbTable
  import opened CdbWrite
  import opened CdbMake

  // ---- Pairs of numbers as bytes --------------------------------------------------------------------

  ghost predicate PairFits(x: Rec) {
    x.hval < TWO32 && x.rpos < TWO32
  }

  ghost predicate PairsFit(xs: seq<Rec>) {
    forall i {:trigger PairFits(xs[i])} | 0 <= i < |xs| :: PairFits(xs[i])
  }

  function PairBytes(x: Rec): (r: seq<Byte>)
    requires PairFits(x)
    ensures |r| == 8
  {
    Pack(x.hval) + Pack(x.rpos)
  }

  /** Slot i of a table at pos reads as it should. */
  ghost predicate SlotReads(file: seq<Byte>, pos: nat, xs: seq<Rec>, i: nat)
    requires i < |xs|
  {
    pos + 8 * i + 8 <= |file| && NumAt(file, pos + 8 * i) == xs[i].hval && NumAt(file, pos + 8 * i + 4) == xs[i].rpos
  }

  /** A table, eight bytes a slot, is at pos. */
  ghost predicate SlotsAt(file: seq<Byte>, pos: nat, xs: seq<Rec>) {
    && pos + 8 * |xs| <= |file|
    && forall i {:trigger SlotReads(file, pos, xs, i)} | 0 <= i < |xs| :: SlotReads(file, pos, xs, i)
  }

  /** A pair reads back as its two numbers. */
  lemma PairReads(file: seq<Byte>, p: nat, x: Rec)
    requires PairFits(x) && Holds(file, p, PairBytes(x))
    ensures p + 8 <= |file| && NumAt(file, p) == x.hval && NumAt(file, p + 4) == x.rpos
  {
    UnpackPack(x.hval);
    UnpackPack(x.rpos);
    SubSlice(file, p, p + 8, 0, 4);
    SubSlice(file, p, p + 8, 4, 8);
    assert PairBytes(x)[0..4] == Pack(x.hval) && PairBytes(x)[4..8] == Pack(x.rpos);
  }

  /** Where the bytes of a table are found again, the table is. */
  lemma SlotsCopied(file: seq<Byte>, p: nat, file': seq<Byte>, q: nat, xs: seq<Rec>)
    requires SlotsAt(file, p, xs) && q + 8 * |xs| <= |file'| && file'[q..q + 8 * |xs|] == file[p..p + 8 * |xs|]
    ensures SlotsAt(file', q, xs)
  {
    forall i {:trigger SlotReads(file', q, xs, i)} | 0 <= i < |xs| ensures SlotReads(file', q, xs, i) {
      assert SlotReads(file, p, xs, i);
      SameNumber(file, p, file', q, 8 * i, 8 * |xs|);
      SameNumber(file, p, file', q, 8 * i + 4, 8 * |xs|);
    }
  }

  lemma SameNumber(file: seq<Byte>, p: nat, file': seq<Byte>, q: nat, k: nat, n: nat)
    requires p + n <= |file| && q + n <= |file'| && k + 4 <= n && file'[q..q + n] == file[p..p + n]
    ensures NumAt(file', q + k) == NumAt(file, p + k)
  {
    SubSlice(file, p, p + n, k, k + 4);
    SubSlice(file', q, q + n, k, k + 4);
  }

  lemma SlotsLonger(file: seq<Byte>, more: seq<Byte>, pos: nat, xs: seq<Rec>)
    requires SlotsAt(file, pos, xs)
    ensures SlotsAt(file + more, pos, xs)
  {
    assert (file + more)[pos..pos + 8 * |xs|] == file[pos..pos + 8 * |xs|];
    SlotsCopied(file, pos, file + more, pos, xs);
  }

  lemma SlotsSnoc(bytes: seq<Byte>, xs: seq<Rec>, x: Rec)
    requires SlotsAt(bytes, 0, xs) && |bytes| == 8 * |xs| && PairFits(x)
    ensures SlotsAt(bytes + PairBytes(x), 0, xs + [x])
  {
    var bytes', xs' := bytes + PairBytes(x), xs + [x];
    SlotsLonger(bytes, PairBytes(x), 0, xs);
    assert bytes'[|bytes|..|bytes| + 8] == PairBytes(x);
    PairReads(bytes', |bytes|, x);
    forall i {:trigger SlotReads(bytes', 0, xs', i)} | 0 <= i < |xs'| ensures SlotReads(bytes', 0, xs', i) {
      if i < |xs| {
        assert SlotReads(bytes', 0, xs, i);
      }
    }
  }

  /** A table or the table of contents, packed slot by slot. */
  method PackSlots(xs: seq<Rec>) returns (r: seq<Byte>)
    requires PairsFit(xs)
    ensures |r| == 8 * |xs| && SlotsAt(r, 0, xs)
  {
    r := [];
    for i := 0 to |xs|
      invariant |r| == 8 * i && SlotsAt(r, 0, xs[..i])
    {
      assert PairFits(xs[i]);
      SlotsSnoc(r, xs[..i], xs[i]);
      assert xs[..i + 1] == xs[..i] + [xs[i]];
      r := r + PairBytes(xs[i]);
    }
    assert xs[..|xs|] == xs;
  }

  // ---- The lists, oldest record first -----------------------------------------------------------------

  ghost function InOrder(bs: seq<Block>): seq<Rec> {
    if bs == [] then [] else bs[0] + InOrder(bs[1..])
  }

  /** The block list turned around, and its records counted. */
  method Reorder(bs: seq<Block>) returns (rs: seq<Block>, cnt: nat)
    ensures InOrder(rs) == Flat(bs) && cnt == |Flat(bs)|
  {
    rs, cnt := [], 0;
    for k := 0 to |bs|
      invariant InOrder(rs) == Flat(bs[..k]) && cnt == |Flat(bs[..k])|
    {
      FlatNext(bs, k);
      ghost var was := rs;
      rs := [bs[k]] + rs;
      assert rs[1..] == was;
      cnt := cnt + |bs[k]|;
    }
    assert bs[..|bs|] == bs;
  }

  lemma FlatNext(bs: seq<Block>, k: nat)
    requires k < |bs|
    ensures Flat(bs[..k + 1]) == bs[k] + Flat(bs[..k])
  {
    var cs := bs[..k + 1];
    FlatSplit(cs, k);
    assert cs[k..] == [bs[k]] && cs[..k] == bs[..k];
    assert Flat([bs[k]]) == bs[k] by {
      assert [bs[k]][1..] == [];
    }
  }

  lemma {:induction false} InOrderSplit(bs: seq<Block>, k: nat)
    requires k < |bs|
    ensures InOrder(bs) == InOrder(bs[..k]) + bs[k] + InOrder(bs[k + 1..])
  {
    if k == 0 {
      assert bs[..0] == [];
    } else {
      InOrderSplit(bs[1..], k - 1);
      assert bs[..k][0] == bs[0] && bs[..k][1..] == bs[1..][..k - 1];
      assert bs[1..][k - 1] == bs[k] && bs[1..][k..] == bs[k + 1..];
    }
  }

  /** One block's records, each to its seat. */
  method SeatBlock(htab: seq<Rec>, b: Block, ghost xs: seq<Rec>, ghost dist: seq<nat>)
    returns (htab': seq<Rec>, ghost dist': seq<nat>)
    requires Tabled(htab, xs, dist) && Used(htab) + |b| < |htab| && forall i | 0 <= i < |b| :: b[i].rpos != 0
    ensures Tabled(htab', xs + b, dist') && |htab'| == |htab| && Used(htab') == Used(htab) + |b|
  {
    htab', dist' := htab, dist;
    ghost var ys := xs;
    for i := 0 to |b|
      invariant Tabled(htab', ys, dist') && |htab'| == |htab| && Used(htab') == Used(htab) + i
      invariant ys == xs + b[..i]
    {
      ghost var d;
      htab', d := Seat(htab', b[i], ys, dist');
      ys, dist' := ys + [b[i]], dist' + [d];
    }
    assert b[..|b|] == b;
  }

  /** The table of one list. */
  method FillTable(rs: seq<Block>, len: nat) returns (htab: seq<Rec>, ghost dist: seq<nat>)
    requires len == 2 * |InOrder(rs)| > 0 && forall j | 0 <= j < |InOrder(rs)| :: InOrder(rs)[j].rpos != 0
    ensures |htab| == len && Tabled(htab, InOrder(rs), dist)
  {
    htab, dist := seq(len, _ => EMPTY), [];
    NoneUsed(htab);
    for k := 0 to |rs|
      invariant |htab| == len && Tabled(htab, InOrder(rs[..k]), dist) && Used(htab) == |InOrder(rs[..k])|
    {
      InOrderSplit(rs, k);
      NextBlock(rs, k);
      BlockNonzero(rs, k);
      htab, dist := SeatBlock(htab, rs[k], InOrder(rs[..k]), dist);
    }
    assert rs[..|rs|] == rs;
  }

  lemma NextBlock(rs: seq<Block>, k: nat)
    requires k < |rs|
    ensures InOrder(rs[..k + 1]) == InOrder(rs[..k]) + rs[k]
  {
    InOrderSplit(rs[..k + 1], k);
    assert rs[..k + 1][..k] == rs[..k] && rs[..k + 1][k + 1..] == [];
  }

  lemma BlockNonzero(rs: seq<Block>, k: nat)
    requires k < |rs| && forall j | 0 <= j < |InOrder(rs)| :: InOrder(rs)[j].rpos != 0
    ensures forall i | 0 <= i < |rs[k]| :: rs[k][i].rpos != 0
  {
    InOrderSplit(rs, k);
    var n := |InOrder(rs[..k])|;
    forall i | 0 <= i < |rs[k]| ensures rs[k][i].rpos != 0 {
      assert InOrder(rs)[n + i] == rs[k][i];
    }
  }

  // ---- How much room the tables take ---------------------------------------------------------------------

  /** Records in the lists below t. */
  ghost function InLists(es: seq<Entry>, t: nat): nat {
    if t == 0 then 0 else InLists(es, t - 1) + |Infos(es, t - 1, HEADER)|
  }

  lemma {:induction false} ListsRise(es: seq<Entry>, t: nat, u: nat)
    requires t <= u
    ensures InLists(es, t) <= InLists(es, u)
  {
    if t < u {
      ListsRise(es, t, u - 1);
    }
  }

  ghost function LiveBelow(es: seq<Entry>, t: nat): nat {
    if es == [] then 0 else LiveBelow(es[1..], t) + if es[0].live && es[0].hval % 256 < t then 1 else 0
  }

  lemma {:induction false} OneListMore(es: seq<Entry>, t: nat, off: nat)
    ensures LiveBelow(es, t + 1) == LiveBelow(es, t) + |Infos(es, t, off)|
  {
    if es != [] {
      OneListMore(es[1..], t, off + |es[0].bytes|);
    }
  }

  lemma {:induction false} ListsAreLive(es: seq<Entry>, t: nat)
    ensures InLists(es, t) == LiveBelow(es, t)
  {
    if t == 0 {
      NoneBelowZero(es);
    } else {
      ListsAreLive(es, t - 1);
      OneListMore(es, t - 1, HEADER);
    }
  }

  lemma {:induction false} NoneBelowZero(es: seq<Entry>)
    ensures LiveBelow(es, 0) == 0
  {
    if es != [] {
      NoneBelowZero(es[1..]);
    }
  }

  lemma {:induction false} AllBelow(es: seq<Entry>)
    ensures LiveBelow(es, 256) == |LiveOf(es)|
  {
    if es != [] {
      AllBelow(es[1..]);
    }
  }

  /** The check of cdb_make_finish_internal. */
  predicate FinishRefused(dpos: nat, rcnt: nat)
    requires dpos < TWO32
  {
    (TWO32 - 1 - dpos) / 8 < rcnt
  }

  /**
   * The check makes room for eight bytes a record, where the tables take sixteen: it refuses exactly
   * the files that do not fit in 32 bits, if and only if the file is not between the two.
   */
  lemma FinishCheckExact(dpos: nat, rcnt: nat)
    requires dpos < TWO32
    ensures FinishRefused(dpos, rcnt) <==> dpos + 8 * rcnt >= TWO32
    ensures dpos + 16 * rcnt < TWO32 ==> !FinishRefused(dpos, rcnt)
    ensures (FinishRefused(dpos, rcnt) <==> dpos + 16 * rcnt >= TWO32) <==>
            !(dpos + 8 * rcnt < TWO32 <= dpos + 16 * rcnt)
  {
  }

  lemma {:induction false} DataTakesEight(es: seq<Entry>)
    requires AllSound(es)
    ensures |Data(es)| >= 8 * |LiveOf(es)|
  {
    if es != [] {
      assert Sound(es[0]);
      forall i | 0 <= i < |es[1..]| ensures Sound(es[1..][i]) {
        assert es[1..][i] == es[i + 1];
      }
      DataTakesEight(es[1..]);
    }
  }

  /** Every record in the index has taken at least eight bytes, so not every pair of numbers is met by the check. */
  lemma RoomTaken(m: Maker, es: seq<Entry>)
    requires Valid(m, es)
    ensures m.dpos >= HEADER + 8 * m.rcnt
  {
    DataTakesEight(es);
  }

  /** n records with an empty key and an empty value. */
  ghost function Empties(n: nat): seq<Entry> {
    if n == 0 then [] else [MakeEntry([], [], true)] + Empties(n - 1)
  }

  lemma {:induction false} EmptiesSize(n: nat)
    ensures AllSound(Empties(n)) && |Image(Empties(n))| == HEADER + 8 * n && |LiveOf(Empties(n))| == n
  {
    if n > 0 {
      EmptiesSize(n - 1);
      assert Empties(n)[1..] == Empties(n - 1);
    }
  }

  /**
   * Such records reach the gap: the check lets them pass and their tables do not fit, exactly for
   * these numbers of them, 200 million being one.
   */
  lemma EmptiesInGap(n: nat)
    requires HEADER + 8 * n < TWO32
    ensures var dpos, rcnt := |Image(Empties(n))|, |LiveOf(Empties(n))|;
            (dpos < TWO32 && !FinishRefused(dpos, rcnt) && dpos + 16 * rcnt >= TWO32) <==>
                HEADER + 16 * n < TWO32 <= HEADER + 24 * n
    ensures n == 200_000_000 ==> HEADER + 16 * n < TWO32 <= HEADER + 24 * n
  {
    EmptiesSize(n);
  }

  // ---- A finished file -------------------------------------------------------------------------------------

  /** Table t is at pos and holds list t. */
  ghost predicate TableOk(file: seq<Byte>, es: seq<Entry>, t: nat, pos: nat, htab: seq<Rec>, dist: seq<nat>) {
    && HEADER + |Data(es)| <= pos
    && |htab| == 2 * |Infos(es, t, HEADER)|
    && SlotsAt(file, pos, htab)
    && Tabled(htab, Infos(es, t, HEADER), dist)
  }

  /** The first t tables are there. */
  ghost predicate TablesOk(file: seq<Byte>, es: seq<Entry>, hpos: seq<nat>, tabs: seq<seq<Rec>>, dists: seq<seq<nat>>,
      t: nat) {
    && |hpos| == |tabs| == |dists| == t
    && forall u {:trigger TableOk(file, es, u, hpos[u], tabs[u], dists[u])} | 0 <= u < t ::
        TableOk(file, es, u, hpos[u], tabs[u], dists[u])
  }

  lemma TablesLonger(file: seq<Byte>, more: seq<Byte>, es: seq<Entry>, hpos: seq<nat>, tabs: seq<seq<Rec>>,
      dists: seq<seq<nat>>, t: nat)
    requires TablesOk(file, es, hpos, tabs, dists, t)
    ensures TablesOk(file + more, es, hpos, tabs, dists, t)
  {
    forall u {:trigger TableOk(file + more, es, u, hpos[u], tabs[u], dists[u])} | 0 <= u < t
      ensures TableOk(file + more, es, u, hpos[u], tabs[u], dists[u])
    {
      assert TableOk(file, es, u, hpos[u], tabs[u], dists[u]);
      SlotsLonger(file, more, hpos[u], tabs[u]);
    }
  }

  lemma TablesOneMore(file: seq<Byte>, es: seq<Entry>, hpos: seq<nat>, tabs: seq<seq<Rec>>, dists: seq<seq<nat>>,
      t: nat, pos: nat, htab: seq<Rec>, dist: seq<nat>)
    requires TablesOk(file, es, hpos, tabs, dists, t) && TableOk(file, es, t, pos, htab, dist)
    ensures TablesOk(file, es, hpos + [pos], tabs + [htab], dists + [dist], t + 1)
  {
    var h, ts, ds := hpos + [pos], tabs + [htab], dists + [dist];
    forall u {:trigger TableOk(file, es, u, h[u], ts[u], ds[u])} | 0 <= u < t + 1
      ensures TableOk(file, es, u, h[u], ts[u], ds[u])
    {
      if u < t {
        assert TableOk(file, es, u, hpos[u], tabs[u], dists[u]);
      }
    }
  }

  /** Slots are free or hold records of the list, so all numbers fit. */
  lemma TableFits(htab: seq<Rec>, xs: seq<Rec>, dist: seq<nat>)
    requires Tabled(htab, xs, dist) && PairsFit(xs)
    ensures PairsFit(htab)
  {
    forall s {:trigger PairFits(htab[s])} | 0 <= s < |htab| ensures PairFits(htab[s]) {
      assert SeatOrFree(htab, xs, dist, s);
      if htab[s].rpos != 0 {
        var j :| 0 <= j < |xs| && SeatIs(htab, xs[j], dist[j], s);
        assert PairFits(xs[j]);
      }
    }
  }

  lemma InfosFit(es: seq<Entry>, t: nat)
    requires AllSound(es) && HEADER + |Data(es)| < TWO32
    ensures PairsFit(Infos(es, t, HEADER)) && forall k | 0 <= k < |Infos(es, t, HEADER)| ::
            Infos(es, t, HEADER)[k].rpos != 0
  {
    var xs := Infos(es, t, HEADER);
    SoundNonEmpty(es);
    InfosRange(es, t, HEADER);
    forall k {:trigger PairFits(xs[k])} | 0 <= k < |xs| ensures PairFits(xs[k]) {
      var i := InfoIsEntry(es, t, HEADER, k);
      assert Sound(es[i]);
    }
  }

  /** A list turned around by the first loop of cdb_make_finish_internal. */
  ghost predicate Turned(rec: seq<seq<Block>>, es: seq<Entry>) {
    |rec| == 256 && forall t | 0 <= t < 256 :: InOrder(rec[t]) == Infos(es, t, HEADER)
  }

  /** The first loop: table sizes, and lists oldest block first. */
  method CountLists(m: Maker, ghost es: seq<Entry>) returns (hcnt: seq<nat>)
    requires Indexed(m.rec, es)
    modifies m`rec
    ensures Turned(m.rec, es) && |hcnt| == 256 && forall t | 0 <= t < 256 :: hcnt[t] == 2 * |Infos(es, t, HEADER)|
  {
    ghost var was := m.rec;
    hcnt := [];
    for t := 0 to 256
      invariant |m.rec| == 256 && |hcnt| == t
      invariant forall u | 0 <= u < t ::
                InOrder(m.rec[u]) == Infos(es, u, HEADER) && hcnt[u] == 2 * |Infos(es, u, HEADER)|
      invariant forall u | t <= u < 256 :: m.rec[u] == was[u]
    {
      var rs, cnt := Reorder(m.rec[t]);
      m.rec := m.rec[t := rs];
      hcnt := hcnt + [2 * cnt];
    }
  }

  /** What the second loop keeps: data and tables so far, in everything written. */
  ghost predicate Writing(m: Maker, es: seq<Entry>, hpos: seq<nat>, tabs: seq<seq<Rec>>, dists: seq<seq<nat>>, t: nat)
    reads m
  {
    && m.Buffered() && Image(es) <= m.Content()
    && |m.Content()| == HEADER + |Data(es)| + 16 * InLists(es, t)
    && TablesOk(m.Content(), es, hpos, tabs, dists, t)
    && (t > 0 ==> hpos[0] == HEADER + |Data(es)|)
  }

  /** One table, built and written behind what is there. */
  method WriteTable(m: Maker, t: nat, len: nat, ghost es: seq<Entry>, hpos: seq<nat>, ghost tabs: seq<seq<Rec>>,
      ghost dists: seq<seq<nat>>)
    returns (pos: nat, ghost tabs': seq<seq<Rec>>, ghost dists': seq<seq<nat>>)
    requires Writing(m, es, hpos, tabs, dists, t) && t < 256 && Turned(m.rec, es) && len == 2 * |Infos(es, t, HEADER)|
    requires AllSound(es) && HEADER + |Data(es)| < TWO32
    modifies m`file, m`fpos, m`pending, m`dpos
    ensures Writing(m, es, hpos + [pos], tabs', dists', t + 1) && pos == old(m.dpos)
    ensures |m.file| <= Max(old(|m.file|), |m.Content()|) && |old(m.Content())| <= |m.Content()|
  {
    pos := m.dpos;
    ghost var c := m.Content();
    InfosFit(es, t);
    if len == 0 {
      tabs', dists' := tabs + [[]], dists + [[]];
      assert Infos(es, t, HEADER) == [];
      EmptyTable(c, es, t, pos);
      TablesOneMore(c, es, hpos, tabs, dists, t, pos, [], []);
    } else {
      var htab;
      ghost var dist;
      htab, dist := FillTable(m.rec[t], len);
      TableFits(htab, Infos(es, t, HEADER), dist);
      var bytes := PackSlots(htab);
      m.Write(bytes);
      TablesLonger(c, bytes, es, hpos, tabs, dists, t);
      NewTable(c, bytes, es, t, pos, htab, dist);
      TablesOneMore(c + bytes, es, hpos, tabs, dists, t, pos, htab, dist);
      tabs', dists' := tabs + [htab], dists + [dist];
    }
  }

  lemma EmptyTable(file: seq<Byte>, es: seq<Entry>, t: nat, pos: nat)
    requires pos == |file| >= HEADER + |Data(es)| && Infos(es, t, HEADER) == []
    ensures TableOk(file, es, t, pos, [], [])
  {
  }

  lemma NewTable(file: seq<Byte>, bytes: seq<Byte>, es: seq<Entry>, t: nat, pos: nat, htab: seq<Rec>, dist: seq<nat>)
    requires pos == |file| >= HEADER + |Data(es)| && SlotsAt(bytes, 0, htab)
    requires |htab| == 2 * |Infos(es, t, HEADER)| && Tabled(htab, Infos(es, t, HEADER), dist)
    ensures TableOk(file + bytes, es, t, pos, htab, dist)
  {
    assert (file + bytes)[pos..pos + 8 * |htab|] == bytes[0..8 * |htab|];
    SlotsCopied(bytes, 0, file + bytes, pos, htab);
  }

  /** The second loop. */
  method WriteTables(m: Maker, hcnt: seq<nat>, ghost es: seq<Entry>)
    returns (hpos: seq<nat>, ghost tabs: seq<seq<Rec>>, ghost dists: seq<seq<nat>>)
    requires m.Buffered() && m.Content() == Image(es) && AllSound(es) && Turned(m.rec, es)
             && HEADER + |Data(es)| < TWO32
    requires |hcnt| == 256 && forall t | 0 <= t < 256 :: hcnt[t] == 2 * |Infos(es, t, HEADER)|
    modifies m`file, m`fpos, m`pending, m`dpos
    ensures Writing(m, es, hpos, tabs, dists, 256) && |m.file| <= Max(old(|m.file|), |m.Content()|)
  {
    hpos, tabs, dists := [], [], [];
    for t := 0 to 256
      invariant Writing(m, es, hpos, tabs, dists, t) && |m.file| <= Max(old(|m.file|), |m.Content()|)
    {
      var pos;
      pos, tabs, dists := WriteTable(m, t, hcnt[t], es, hpos, tabs, dists);
      hpos := hpos + [pos];
    }
  }

  /** The table of contents: where each table is and how many slots it has. */
  ghost function Toc(hpos: seq<nat>, tabs: seq<seq<Rec>>): (r: seq<Rec>)
    requires |hpos| == |tabs| == 256
    ensures |r| == 256
  {
    seq(256, t requires 0 <= t < 256 => Rec(hpos[t], |tabs[t]|))
  }

  /** A finished database: contents, data and tables in one file, with anything behind. */
  ghost predicate CdbFile(file: seq<Byte>, es: seq<Entry>, hpos: seq<nat>, tabs: seq<seq<Rec>>, dists: seq<seq<nat>>) {
    && AllSound(es) && |file| < TWO32
    && Holds(file, HEADER, Data(es))
    && TablesOk(file, es, hpos, tabs, dists, 256)
    && hpos[0] == HEADER + |Data(es)|
    && SlotsAt(file, 0, Toc(hpos, tabs))
  }

  lemma HoldsBehind(file: seq<Byte>, toc: seq<Byte>, p: nat, bytes: seq<Byte>)
    requires Holds(file, p, bytes) && p >= |toc|
    ensures |Overwrite(file, 0, toc)| == |file| && Holds(Overwrite(file, 0, toc), p, bytes)
  {
    var next := Overwrite(file, 0, toc);
    assert next[p..p + |bytes|] == file[p..p + |bytes|];
  }

  /** Tables behind the contents are not touched by writing those. */
  lemma TablesBehind(file: seq<Byte>, toc: seq<Byte>, es: seq<Entry>, hpos: seq<nat>, tabs: seq<seq<Rec>>,
      dists: seq<seq<nat>>)
    requires TablesOk(file, es, hpos, tabs, dists, 256) && |toc| == HEADER
    ensures TablesOk(Overwrite(file, 0, toc), es, hpos, tabs, dists, 256)
  {
    var next := Overwrite(file, 0, toc);
    forall u {:trigger TableOk(next, es, u, hpos[u], tabs[u], dists[u])} | 0 <= u < 256
      ensures TableOk(next, es, u, hpos[u], tabs[u], dists[u])
    {
      assert TableOk(file, es, u, hpos[u], tabs[u], dists[u]);
      assert next[hpos[u]..hpos[u] + 8 * |tabs[u]|] == file[hpos[u]..hpos[u] + 8 * |tabs[u]|];
      SlotsCopied(file, hpos[u], next, hpos[u], tabs[u]);
    }
  }

  lemma TocFits(file: seq<Byte>, es: seq<Entry>, hpos: seq<nat>, tabs: seq<seq<Rec>>, dists: seq<seq<nat>>)
    requires TablesOk(file, es, hpos, tabs, dists, 256) && |file| < TWO32
    ensures PairsFit(Toc(hpos, tabs))
  {
    var toc := Toc(hpos, tabs);
    forall t {:trigger PairFits(toc[t])} | 0 <= t < 256 ensures PairFits(toc[t]) {
      assert TableOk(file, es, t, hpos[t], tabs[t], dists[t]);
    }
  }

  /** The counts are what the tables have. */
  lemma TocIs(file: seq<Byte>, es: seq<Entry>, hpos: seq<nat>, hcnt: seq<nat>, tabs: seq<seq<Rec>>,
      dists: seq<seq<nat>>, toc: seq<Rec>)
    requires TablesOk(file, es, hpos, tabs, dists, 256) && |hcnt| == 256 && forall t | 0 <= t < 256 ::
             hcnt[t] == 2 * |Infos(es, t, HEADER)|
    requires |toc| == 256 && forall t | 0 <= t < 256 :: toc[t] == Rec(hpos[t], hcnt[t])
    ensures toc == Toc(hpos, tabs)
  {
    forall t | 0 <= t < 256 ensures toc[t] == Toc(hpos, tabs)[t] {
      assert TableOk(file, es, t, hpos[t], tabs[t], dists[t]);
    }
  }

  /** The contents written at the start of the file. */
  method WriteToc(m: Maker, hpos: seq<nat>, hcnt: seq<nat>, ghost es: seq<Entry>, ghost tabs: seq<seq<Rec>>,
      ghost dists: seq<seq<nat>>)
    requires AllSound(es) && |m.file| < TWO32 && Image(es) <= m.file && TablesOk(m.file, es, hpos, tabs, dists, 256)
    requires hpos[0] == HEADER + |Data(es)|
    requires |hcnt| == 256 && forall t | 0 <= t < 256 :: hcnt[t] == 2 * |Infos(es, t, HEADER)|
    modifies m`file, m`fpos
    ensures CdbFile(m.file, es, hpos, tabs, dists)
  {
    var toc := seq(256, t requires 0 <= t < 256 => Rec(hpos[t], hcnt[t]));
    TocIs(m.file, es, hpos, hcnt, tabs, dists, toc);
    TocFits(m.file, es, hpos, tabs, dists);
    var bytes := PackSlots(toc);
    DataBehind(m.file, es);
    HoldsBehind(m.file, bytes, HEADER, Data(es));
    TablesBehind(m.file, bytes, es, hpos, tabs, dists);
    m.fpos := 0;
    m.FullWrite(bytes);
    assert m.file[0..8 * |toc|] == bytes[0..8 * |toc|];
    SlotsCopied(bytes, 0, m.file, 0, toc);
  }

  lemma DataBehind(file: seq<Byte>, es: seq<Entry>)
    requires Image(es) <= file
    ensures Holds(file, HEADER, Data(es))
  {
    assert file[HEADER..HEADER + |Data(es)|] == Image(es)[HEADER..];
  }

  /** cdb_make_finish: a database any reader understands, unless the check refuses it. */
  method Finish(m: Maker, ghost es: seq<Entry>)
    returns (r: int, ghost hpos: seq<nat>, ghost tabs: seq<seq<Rec>>, ghost dists: seq<seq<nat>>)
    requires Valid(m, es)
    requires FinishRefused(m.dpos, m.rcnt) || m.dpos + 16 * m.rcnt < TWO32
    modifies m
    ensures r == if FinishRefused(old(m.dpos), old(m.rcnt)) then -1 else 0
    ensures r == 0 ==> CdbFile(m.file, es, hpos, tabs, dists)
  {
    if FinishRefused(m.dpos, m.rcnt) {
      return -1, [], [], [];
    }
    ListsAreLive(es, 256);
    AllBelow(es);
    var hcnt := CountLists(m, es);
    var at;
    at, tabs, dists := WriteTables(m, hcnt, es);
    hpos := at;
    FlushTables(m, es, at, tabs, dists);
    WriteToc(m, at, hcnt, es, tabs, dists);
    r := 0;
  }

  method FlushTables(m: Maker, ghost es: seq<Entry>, hpos: seq<nat>, ghost tabs: seq<seq<Rec>>,
      ghost dists: seq<seq<nat>>)
    requires Writing(m, es, hpos, tabs, dists, 256) && |m.Content()| < TWO32 && |m.file| < TWO32
    modifies m`file, m`fpos, m`pending
    ensures |m.file| < TWO32 && Image(es) <= m.file && TablesOk(m.file, es, hpos, tabs, dists, 256)
  {
    ghost var c := m.Content();
    m.Flush();
    assert m.file == c + m.file[m.fpos..];
    TablesLonger(c, m.file[m.fpos..], es, hpos, tabs, dists, 256);
  }
}
