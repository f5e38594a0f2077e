// The writer's record lists of contrib/cdb/cdb_make.c: 256 lists of blocks, the newest block first.
module CdbIndex {
  import opened Common
  import opened CdbFormat

  /** struct cdb_rec: where a record with this hash starts. */
  datatype Rec = Rec(hval: nat, rpos: nat)

  /** Records per block of a list (struct cdb_rl). */
  const BLOCK: nat := 254

  type Block = seq<Rec>

  ghost predicate InList(e: Entry, t: nat) {
    e.live && e.hval % 256 == t
  }

  /** List t as it should be, oldest first, for entries that start at off. */
  ghost function Infos(es: seq<Entry>, t: nat, off: nat): seq<Rec> {
    if es == [] then [] else InfoOf(es[0], t, off) + Infos(es[1..], t, off + |es[0].bytes|)
  }

  ghost function InfoOf(e: Entry, t: nat, off: nat): seq<Rec> {
    if InList(e, t) then [Rec(e.hval, off)] else []
  }

  lemma {:induction false} InfosJoin(a: seq<Entry>, b: seq<Entry>, ab: seq<Entry>, t: nat, off: nat)
    requires ab == a + b
    ensures Infos(ab, t, off) == Infos(a, t, off) + Infos(b, t, off + |Data(a)|)
  {
    if a == [] {
      assert ab == b;
    } else {
      var e, rest, next := a[0], a[1..], off + |a[0].bytes|;
      assert ab[0] == e && ab[1..] == rest + b;
      InfosJoin(rest, b, ab[1..], t, next);
      assert next + |Data(rest)| == off + |Data(a)|;
      Assoc(InfoOf(e, t, off), Infos(rest, t, next), Infos(b, t, off + |Data(a)|));
    }
  }

  lemma InfosOne(e: Entry, t: nat, off: nat)
    ensures Infos([e], t, off) == InfoOf(e, t, off)
  {
    assert [e][1..] == [];
  }

  /** Positions lie inside the entries' bytes and increase. */
  lemma {:induction false} InfosRange(es: seq<Entry>, t: nat, off: nat)
    requires NonEmpty(es)
    ensures forall k | 0 <= k < |Infos(es, t, off)| :: off <= Infos(es, t, off)[k].rpos < off + |Data(es)|
    ensures forall j, k | 0 <= j < k < |Infos(es, t, off)| :: Infos(es, t, off)[j].rpos < Infos(es, t, off)[k].rpos
  {
    if es != [] {
      InfosRange(es[1..], t, off + |es[0].bytes|);
    }
  }

  /** Each element of a list is some live entry of that list, at its own position. */
  lemma {:induction false} InfoIsEntry(es: seq<Entry>, t: nat, off: nat, k: nat) returns (i: nat)
    requires k < |Infos(es, t, off)|
    ensures i < |es| && InList(es[i], t) && Infos(es, t, off)[k] == Rec(es[i].hval, off + |Data(es[..i])|)
    ensures |Infos(es[..i], t, off)| == k
  {
    if InList(es[0], t) && k == 0 {
      i := 0;
    } else {
      var j := InfoIsEntry(es[1..], t, off + |es[0].bytes|, if InList(es[0], t) then k - 1 else k);
      i := j + 1;
      FirstCounted(es, j, t, off);
    }
  }

  /** The first entry's part of the data and of a list. */
  lemma FirstCounted(es: seq<Entry>, j: nat, t: nat, off: nat)
    requires j < |es|
    ensures |Data(es[..j + 1])| == |es[0].bytes| + |Data(es[1..][..j])|
    ensures |Infos(es[..j + 1], t, off)| == |InfoOf(es[0], t, off)| + |Infos(es[1..][..j], t, off + |es[0].bytes|)|
  {
    assert es[..j + 1][0] == es[0] && es[..j + 1][1..] == es[1..][..j];
  }

  // ---- Moving records down ----------------------------------------------------------------------

  function Moved(x: Rec, rpos: nat, rlen: nat): Rec {
    if x.rpos <= rpos || x.rpos < rlen then x else Rec(x.hval, x.rpos - rlen)
  }

  function MovedAll(xs: seq<Rec>, rpos: nat, rlen: nat): (r: seq<Rec>)
    ensures |r| == |xs|
  {
    seq(|xs|, i requires 0 <= i < |xs| => Moved(xs[i], rpos, rlen))
  }

  lemma MovedJoin(a: seq<Rec>, b: seq<Rec>, rpos: nat, rlen: nat)
    ensures MovedAll(a + b, rpos, rlen) == MovedAll(a, rpos, rlen) + MovedAll(b, rpos, rlen)
  {
  }

  /** Entries before the removed record do not move. */
  lemma MovedBefore(es: seq<Entry>, t: nat, off: nat, rpos: nat, rlen: nat)
    requires off + |Data(es)| <= rpos && NonEmpty(es)
    ensures MovedAll(Infos(es, t, off), rpos, rlen) == Infos(es, t, off)
  {
    InfosRange(es, t, off);
  }

  /** Entries behind it move down by its length. */
  lemma {:induction false} MovedBehind(es: seq<Entry>, t: nat, off: nat, rpos: nat, rlen: nat)
    requires off > rpos && off >= rlen
    ensures MovedAll(Infos(es, t, off), rpos, rlen) == Infos(es, t, off - rlen)
  {
    if es != [] {
      MovedBehind(es[1..], t, off + |es[0].bytes|, rpos, rlen);
      MovedJoin(InfoOf(es[0], t, off), Infos(es[1..], t, off + |es[0].bytes|), rpos, rlen);
    }
  }

  /**
   * fixup_rpos is what removing an entry needs: with the entry's own element taken out, the
   * list is the one for the remaining entries.
   */
  lemma MovedIsRemoved(a: seq<Entry>, e: Entry, b: seq<Entry>, es: seq<Entry>, t: nat)
    requires es == a + [e] + b && NonEmpty(a) && |e.bytes| > 0
    ensures var rpos := HEADER + |Data(a)|;
            MovedAll(Infos(es, t, HEADER), rpos, |e.bytes|)
                == Infos(a, t, HEADER) + InfoOf(e, t, rpos) + Infos(b, t, rpos)
  {
    var rpos, n := HEADER + |Data(a)|, |e.bytes|;
    InfosAround(a, e, b, es, t);
    MovedBefore(a, t, HEADER, rpos, n);
    MovedBehind(b, t, rpos + n, rpos, n);
    OwnStays(e, t, rpos, n);
    MovedParts(Infos(es, t, HEADER), Infos(a, t, HEADER), InfoOf(e, t, rpos), Infos(b, t, rpos + n), Infos(b, t, rpos),
        rpos, n);
  }

  lemma OwnStays(e: Entry, t: nat, rpos: nat, rlen: nat)
    ensures MovedAll(InfoOf(e, t, rpos), rpos, rlen) == InfoOf(e, t, rpos)
  {
  }

  lemma InfosAround(a: seq<Entry>, e: Entry, b: seq<Entry>, es: seq<Entry>, t: nat)
    requires es == a + [e] + b
    ensures var rpos := HEADER + |Data(a)|;
            Infos(es, t, HEADER) == Infos(a, t, HEADER) + InfoOf(e, t, rpos) + Infos(b, t, rpos + |e.bytes|)
  {
    var ae := a + [e];
    InfosJoin(ae, b, es, t, HEADER);
    InfosSnoc(a, e, ae, t);
  }

  lemma InfosSnoc(a: seq<Entry>, e: Entry, ae: seq<Entry>, t: nat)
    requires ae == a + [e]
    ensures Infos(ae, t, HEADER) == Infos(a, t, HEADER) + InfoOf(e, t, HEADER + |Data(a)|)
    ensures |Data(ae)| == |Data(a)| + |e.bytes|
  {
    InfosJoin(a, [e], ae, t, HEADER);
    InfosOne(e, t, HEADER + |Data(a)|);
    DataJoin(a, [e]);
    DataOne(e);
  }

  lemma MovedParts(xs: seq<Rec>, a: seq<Rec>, b: seq<Rec>, c: seq<Rec>, c': seq<Rec>, rpos: nat, rlen: nat)
    requires xs == a + b + c && MovedAll(a, rpos, rlen) == a && MovedAll(b, rpos, rlen) == b
             && MovedAll(c, rpos, rlen) == c'
    ensures MovedAll(xs, rpos, rlen) == a + b + c'
  {
    MovedJoin(a + b, c, rpos, rlen);
    MovedJoin(a, b, rpos, rlen);
  }

  // ---- Blocks -----------------------------------------------------------------------------------

  /** A list of blocks, oldest record first. */
  ghost function Flat(bs: seq<Block>): seq<Rec> {
    if bs == [] then [] else Flat(bs[1..]) + bs[0]
  }

  lemma {:induction false} FlatSplit(bs: seq<Block>, k: nat)
    requires k <= |bs|
    ensures Flat(bs) == Flat(bs[k..]) + Flat(bs[..k])
  {
    if k == 0 {
      assert bs[0..] == bs && bs[..0] == [];
    } else {
      FlatSplit(bs[1..], k - 1);
      assert bs[1..][k - 1..] == bs[k..] && bs[..k][1..] == bs[1..][..k - 1];
    }
  }

  /** The list around one of its blocks. */
  lemma FlatAt(bs: seq<Block>, k: nat)
    requires k < |bs|
    ensures Flat(bs) == Flat(bs[k + 1..]) + bs[k] + Flat(bs[..k])
  {
    FlatSplit(bs, k);
    assert bs[k..][0] == bs[k] && bs[k..][1..] == bs[k + 1..];
  }

  lemma FlatUpdate(bs: seq<Block>, k: nat, b: Block)
    requires k < |bs|
    ensures Flat(bs[k := b]) == Flat(bs[k + 1..]) + b + Flat(bs[..k])
  {
    FlatAt(bs[k := b], k);
    assert bs[k := b][k + 1..] == bs[k + 1..] && bs[k := b][..k] == bs[..k];
  }

  ghost predicate BlocksFit(bs: seq<Block>) {
    forall k | 0 <= k < |bs| :: |bs[k]| <= BLOCK
  }

  /** A record added to its list: into the newest block, or a new one when that is full. */
  method AddRec(bs: seq<Block>, x: Rec) returns (bs': seq<Block>)
    requires BlocksFit(bs)
    ensures BlocksFit(bs') && Flat(bs') == Flat(bs) + [x]
  {
    bs' := bs;
    if bs' == [] || |bs'[0]| >= BLOCK {
      bs' := [[]] + bs';
      assert bs'[1..] == bs;
    }
    ghost var was := bs';
    bs' := bs'[0 := bs'[0] + [x]];
    assert bs'[1..] == was[1..];
    Assoc(Flat(was[1..]), was[0], [x]);
  }

  /** Positions increase from oldest to newest. */
  ghost predicate Rising(xs: seq<Rec>) {
    forall j, k | 0 <= j < k < |xs| :: xs[j].rpos < xs[k].rpos
  }

  /** Whatever is behind rpos can move down by rlen. */
  ghost predicate CanMove(xs: seq<Rec>, rpos: nat, rlen: nat) {
    forall k | 0 <= k < |xs| :: xs[k].rpos > rpos ==> xs[k].rpos >= rlen
  }

  /** Every block moved as fixup_rpos moves it. */
  function MovedBlocks(bs: seq<Block>, rpos: nat, rlen: nat): (r: seq<Block>)
    ensures |r| == |bs|
  {
    seq(|bs|, k requires 0 <= k < |bs| => MovedAll(bs[k], rpos, rlen))
  }

  lemma {:induction false} FlatMoved(bs: seq<Block>, rpos: nat, rlen: nat)
    ensures Flat(MovedBlocks(bs, rpos, rlen)) == MovedAll(Flat(bs), rpos, rlen)
  {
    if bs != [] {
      FlatMoved(bs[1..], rpos, rlen);
      assert MovedBlocks(bs, rpos, rlen)[1..] == MovedBlocks(bs[1..], rpos, rlen);
      MovedJoin(Flat(bs[1..]), bs[0], rpos, rlen);
    }
  }

  /** All records of a list so old that they are not behind the removed one. */
  ghost predicate NotBehind(xs: seq<Rec>, rpos: nat) {
    forall k | 0 <= k < |xs| :: xs[k].rpos <= rpos
  }

  lemma {:induction false} OldBlocksStay(bs: seq<Block>, rpos: nat, rlen: nat)
    requires NotBehind(Flat(bs), rpos)
    ensures MovedBlocks(bs, rpos, rlen) == bs
  {
    if bs != [] {
      var n := |Flat(bs[1..])|;
      assert forall k | 0 <= k < n :: Flat(bs)[k] == Flat(bs[1..])[k];
      assert forall k | 0 <= k < |bs[0]| :: Flat(bs)[n + k] == bs[0][k];
      OldBlocksStay(bs[1..], rpos, rlen);
      assert MovedBlocks(bs, rpos, rlen)[1..] == MovedBlocks(bs[1..], rpos, rlen);
      assert MovedAll(bs[0], rpos, rlen) == bs[0];
      assert bs == [bs[0]] + bs[1..];
    }
  }

  /** One block of fixup_rpos, newest record first, up to the first one that is not behind. */
  method FixupBlock(b: Block, rpos: nat, rlen: nat) returns (b': Block, stop: bool)
    requires Rising(b) && CanMove(b, rpos, rlen)
    ensures b' == MovedAll(b, rpos, rlen)
    ensures stop ==> |b| > 0 && b[0].rpos <= rpos
  {
    b' := b;
    var i := |b|;
    while i > 0
      invariant 0 <= i <= |b| == |b'|
      invariant forall k | 0 <= k < i :: b'[k] == b[k]
      invariant forall k | i <= k < |b| :: b'[k] == Moved(b[k], rpos, rlen)
    {
      i := i - 1;
      if b[i].rpos <= rpos {
        return b', true;
      }
      b' := b'[i := Rec(b'[i].hval, b'[i].rpos - rlen)];
    }
    stop := false;
  }

  /** fixup_rpos on one list. */
  method FixupList(bs: seq<Block>, rpos: nat, rlen: nat) returns (bs': seq<Block>)
    requires Rising(Flat(bs)) && CanMove(Flat(bs), rpos, rlen)
    ensures bs' == MovedBlocks(bs, rpos, rlen)
  {
    bs' := bs;
    for k := 0 to |bs|
      invariant |bs'| == |bs|
      invariant forall j | 0 <= j < k :: bs'[j] == MovedAll(bs[j], rpos, rlen)
      invariant forall j | k <= j < |bs| :: bs'[j] == bs[j]
    {
      BlockInList(bs, k, rpos, rlen);
      var b, stop := FixupBlock(bs[k], rpos, rlen);
      bs' := bs'[k := b];
      if stop {
        OlderNotBehind(bs, k, rpos);
        OldBlocksStay(bs[k + 1..], rpos, rlen);
        assert forall j | k < j < |bs| ::
            bs[j] == bs[k + 1..][j - k - 1]
                && MovedAll(bs[j], rpos, rlen) == MovedBlocks(bs[k + 1..], rpos, rlen)[j - k - 1];
        return;
      }
    }
  }

  lemma BlockInList(bs: seq<Block>, k: nat, rpos: nat, rlen: nat)
    requires k < |bs| && Rising(Flat(bs)) && CanMove(Flat(bs), rpos, rlen)
    ensures Rising(bs[k]) && CanMove(bs[k], rpos, rlen)
  {
    FlatAt(bs, k);
    PartRises(Flat(bs), Flat(bs[k + 1..]), bs[k], Flat(bs[..k]), rpos, rlen);
  }

  lemma PartRises(xs: seq<Rec>, a: seq<Rec>, b: seq<Rec>, c: seq<Rec>, rpos: nat, rlen: nat)
    requires xs == a + b + c && Rising(xs) && CanMove(xs, rpos, rlen)
    ensures Rising(b) && CanMove(b, rpos, rlen)
  {
    var n := |a|;
    forall i | 0 <= i < |b| ensures b[i] == xs[n + i] {
    }
  }

  /** Records in older blocks are further down than those of this one. */
  lemma OlderNotBehind(bs: seq<Block>, k: nat, rpos: nat)
    requires k < |bs| && Rising(Flat(bs)) && |bs[k]| > 0 && bs[k][0].rpos <= rpos
    ensures NotBehind(Flat(bs[k + 1..]), rpos)
  {
    FlatAt(bs, k);
    var n := |Flat(bs[k + 1..])|;
    assert Flat(bs)[n] == bs[k][0];
    var older := Flat(bs[k + 1..]);
    forall i | 0 <= i < n ensures older[i].rpos <= rpos {
      assert older[i] == Flat(bs)[i];
      assert Flat(bs)[i].rpos < Flat(bs)[n].rpos;
    }
  }
}
