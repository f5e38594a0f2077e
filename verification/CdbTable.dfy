// One hash table of a constant database (contrib/cdb/cdb_make.c): open addressing with twice as
// many slots as records, where a record with position 0 marks a free slot.
module CdbTable {
  import opened CdbIndex

  const EMPTY := Rec(0, 0)

  /** The slot a hash starts at. */
  function Start(hval: nat, len: nat): (s: nat)
    requires len > 0
    ensures s < len
  {
    hval / 256 % len
  }

  /** The low byte of a hash names its list, and the rest the slot in that list's table. */
  lemma SlotOfHash(rest: nat, list: nat, len: nat)
    requires list < 256 && len > 0
    ensures (256 * rest + list) % 256 == list && Start(256 * rest + list, len) == rest % len
  {
  }

  /** The slot d steps further, going around. */
  function Around(start: nat, d: nat, len: nat): (s: nat)
    requires start < len && d < len
    ensures s < len
  {
    if start + d < len then start + d else start + d - len
  }

  /** x is d steps from its start, and all slots on the way are taken. */
  ghost predicate Seated(htab: seq<Rec>, x: Rec, d: nat) {
    && d < |htab|
    && htab[Around(Start(x.hval, |htab|), d, |htab|)] == x
    && forall k | 0 <= k < d :: Taken(htab, x.hval, k)
  }

  ghost predicate Taken(htab: seq<Rec>, hval: nat, k: nat)
    requires k < |htab|
  {
    htab[Around(Start(hval, |htab|), k, |htab|)].rpos != 0
  }

  /** The table holds xs: record j is dist[j] steps from its start. */
  ghost predicate Tabled(htab: seq<Rec>, xs: seq<Rec>, dist: seq<nat>) {
    |dist| == |xs| && AllSeated(htab, xs, dist) && AllAccounted(htab, xs, dist) && AllInTurn(xs, dist)
  }

  ghost predicate AllSeated(htab: seq<Rec>, xs: seq<Rec>, dist: seq<nat>)
    requires |dist| == |xs|
  {
    forall j {:trigger Seated(htab, xs[j], dist[j])} | 0 <= j < |xs| :: xs[j].rpos != 0 && Seated(htab, xs[j], dist[j])
  }

  ghost predicate AllAccounted(htab: seq<Rec>, xs: seq<Rec>, dist: seq<nat>)
    requires |dist| == |xs|
  {
    forall s {:trigger SeatOrFree(htab, xs, dist, s)} | 0 <= s < |htab| :: SeatOrFree(htab, xs, dist, s)
  }

  ghost predicate AllInTurn(xs: seq<Rec>, dist: seq<nat>)
    requires |dist| == |xs|
  {
    forall i, j {:trigger InTurn(xs, dist, i, j)} | 0 <= i < j < |xs| :: InTurn(xs, dist, i, j)
  }

  /** Of two records with one hash the earlier one is nearer to the start. */
  ghost predicate InTurn(xs: seq<Rec>, dist: seq<nat>, i: nat, j: nat)
    requires |dist| == |xs| && i < |xs| && j < |xs|
  {
    xs[i].hval == xs[j].hval ==> dist[i] < dist[j]
  }

  ghost predicate SeatOrFree(htab: seq<Rec>, xs: seq<Rec>, dist: seq<nat>, s: nat)
    requires |dist| == |xs| && s < |htab|
  {
    if htab[s].rpos == 0 then htab[s] == EMPTY else SeatOf(htab, xs, dist, s)
  }

  ghost predicate SeatOf(htab: seq<Rec>, xs: seq<Rec>, dist: seq<nat>, s: nat)
    requires |dist| == |xs|
  {
    exists j :: 0 <= j < |xs| && SeatIs(htab, xs[j], dist[j], s)
  }

  ghost predicate SeatIs(htab: seq<Rec>, x: Rec, d: nat, s: nat) {
    d < |htab| && s == Around(Start(x.hval, |htab|), d, |htab|) && htab[s] == x
  }

  ghost function Used(htab: seq<Rec>): nat {
    if htab == [] then 0 else Used(htab[..|htab| - 1]) + if htab[|htab| - 1].rpos != 0 then 1 else 0
  }

  lemma {:induction false} OneMoreUsed(htab: seq<Rec>, s: nat, x: Rec)
    requires s < |htab| && htab[s].rpos == 0 && x.rpos != 0
    ensures Used(htab[s := x]) == Used(htab) + 1
  {
    var n := |htab| - 1;
    if s == n {
      assert htab[s := x][..n] == htab[..n];
    } else {
      OneMoreUsed(htab[..n], s, x);
      assert htab[s := x][..n] == htab[..n][s := x];
    }
  }

  lemma {:induction false} AllUsed(htab: seq<Rec>)
    requires forall s | 0 <= s < |htab| :: htab[s].rpos != 0
    ensures Used(htab) == |htab|
  {
    if htab != [] {
      AllUsed(htab[..|htab| - 1]);
    }
  }

  lemma {:induction false} NoneUsed(htab: seq<Rec>)
    requires forall s | 0 <= s < |htab| :: htab[s].rpos == 0
    ensures Used(htab) == 0
  {
    if htab != [] {
      NoneUsed(htab[..|htab| - 1]);
    }
  }

  /** Going around once meets every slot. */
  lemma AroundMeets(start: nat, len: nat, s: nat) returns (d: nat)
    requires start < len && s < len
    ensures d < len && Around(start, d, len) == s
  {
    d := if start <= s then s - start else s + len - start;
  }

  lemma AroundOnce(start: nat, len: nat, d: nat, e: nat)
    requires start < len && d < len && e < len && Around(start, d, len) == Around(start, e, len)
    ensures d == e
  {
  }

  lemma SomeFree(htab: seq<Rec>, hval: nat)
    requires Used(htab) < |htab|
    ensures exists k :: 0 <= k < |htab| && !Taken(htab, hval, k)
  {
    if forall k | 0 <= k < |htab| :: Taken(htab, hval, k) {
      forall s | 0 <= s < |htab| ensures htab[s].rpos != 0 {
        var d := AroundMeets(Start(hval, |htab|), |htab|, s);
        assert Taken(htab, hval, d);
      }
      AllUsed(htab);
      assert false;
    }
  }

  /** A slot at distance d, the first free one of x. */
  ghost predicate FirstFree(htab: seq<Rec>, x: Rec, d: nat) {
    && x.rpos != 0 && d < |htab|
    && !Taken(htab, x.hval, d) && forall k | 0 <= k < d :: Taken(htab, x.hval, k)
  }

  /** The table after x was put there. */
  function With(htab: seq<Rec>, x: Rec, d: nat): (r: seq<Rec>)
    requires d < |htab|
    ensures |r| == |htab|
  {
    htab[Around(Start(x.hval, |htab|), d, |htab|) := x]
  }

  /** x has been put into its first free slot. */
  ghost predicate OneMore(htab: seq<Rec>, xs: seq<Rec>, dist: seq<nat>, x: Rec, d: nat,
      htab': seq<Rec>, xs': seq<Rec>, dist': seq<nat>)
  {
    && Tabled(htab, xs, dist) && FirstFree(htab, x, d)
    && htab' == With(htab, x, d) && xs' == xs + [x] && dist' == dist + [d]
  }

  /** A record put into the first free slot from its start keeps everyone's seat. */
  lemma TabledOneMore(htab: seq<Rec>, xs: seq<Rec>, dist: seq<nat>, x: Rec, d: nat,
      htab': seq<Rec>, xs': seq<Rec>, dist': seq<nat>)
    requires OneMore(htab, xs, dist, x, d, htab', xs', dist')
    ensures Tabled(htab', xs', dist')
  {
    SeatedOneMore(htab, xs, dist, x, d, htab', xs', dist');
    forall r {:trigger SeatOrFree(htab', xs', dist', r)} | 0 <= r < |htab'| ensures SeatOrFree(htab', xs', dist', r) {
      assert SeatOrFree(htab, xs, dist, r);
      if htab'[r].rpos != 0 {
        SeatKept(htab, xs, dist, x, d, r);
      }
    }
    forall i, j {:trigger InTurn(xs', dist', i, j)} | 0 <= i < j < |xs'| ensures InTurn(xs', dist', i, j) {
      StillInTurn(htab, xs, dist, x, d, i, j);
    }
  }

  lemma SeatedOneMore(htab: seq<Rec>, xs: seq<Rec>, dist: seq<nat>, x: Rec, d: nat,
      htab': seq<Rec>, xs': seq<Rec>, dist': seq<nat>)
    requires OneMore(htab, xs, dist, x, d, htab', xs', dist')
    ensures AllSeated(htab', xs', dist')
  {
    forall j {:trigger Seated(htab', xs'[j], dist'[j])} | 0 <= j < |xs'|
      ensures xs'[j].rpos != 0 && Seated(htab', xs'[j], dist'[j])
    {
      if j < |xs| {
        assert Seated(htab, xs[j], dist[j]);
        StillSeated(htab, xs[j], dist[j], x, d);
      } else {
        NowSeated(htab, x, d);
      }
    }
  }

  lemma TakenKept(htab: seq<Rec>, x: Rec, d: nat, h: nat, k: nat)
    requires FirstFree(htab, x, d) && k < |htab| && Taken(htab, h, k)
    ensures Taken(With(htab, x, d), h, k)
  {
  }

  lemma StillSeated(htab: seq<Rec>, y: Rec, e: nat, x: Rec, d: nat)
    requires FirstFree(htab, x, d) && Seated(htab, y, e) && y.rpos != 0
    ensures Seated(With(htab, x, d), y, e)
  {
    forall k | 0 <= k < e ensures Taken(With(htab, x, d), y.hval, k) {
      TakenKept(htab, x, d, y.hval, k);
    }
  }

  lemma NowSeated(htab: seq<Rec>, x: Rec, d: nat)
    requires FirstFree(htab, x, d)
    ensures Seated(With(htab, x, d), x, d)
  {
    forall k | 0 <= k < d ensures Taken(With(htab, x, d), x.hval, k) {
      TakenKept(htab, x, d, x.hval, k);
    }
  }

  lemma StillInTurn(htab: seq<Rec>, xs: seq<Rec>, dist: seq<nat>, x: Rec, d: nat, i: nat, j: nat)
    requires Tabled(htab, xs, dist) && FirstFree(htab, x, d) && i < j <= |xs|
    ensures InTurn(xs + [x], dist + [d], i, j)
  {
    if j < |xs| {
      assert InTurn(xs, dist, i, j);
    } else if xs[i].hval == x.hval {
      assert Seated(htab, xs[i], dist[i]);
      assert Taken(htab, x.hval, dist[i]);
    }
  }

  lemma SeatKept(htab: seq<Rec>, xs: seq<Rec>, dist: seq<nat>, x: Rec, d: nat, r: nat)
    requires Tabled(htab, xs, dist) && FirstFree(htab, x, d)
    requires r < |htab| && With(htab, x, d)[r].rpos != 0
    ensures SeatOf(With(htab, x, d), xs + [x], dist + [d], r)
  {
    var s := Around(Start(x.hval, |htab|), d, |htab|);
    var htab', xs', dist' := With(htab, x, d), xs + [x], dist + [d];
    if r == s {
      assert SeatIs(htab', xs'[|xs|], dist'[|xs|], r);
    } else {
      assert SeatOrFree(htab, xs, dist, r);
      var j :| 0 <= j < |xs| && SeatIs(htab, xs[j], dist[j], r);
      assert SeatIs(htab', xs'[j], dist'[j], r);
    }
  }

  /** The inner loop: from the start to the first free slot. */
  method Seat(htab: seq<Rec>, x: Rec, ghost xs: seq<Rec>, ghost dist: seq<nat>) returns (htab': seq<Rec>, ghost d: nat)
    requires Tabled(htab, xs, dist) && x.rpos != 0 && Used(htab) < |htab|
    ensures Tabled(htab', xs + [x], dist + [d]) && |htab'| == |htab| && Used(htab') == Used(htab) + 1
  {
    var len := |htab|;
    SomeFree(htab, x.hval);
    ghost var free :| 0 <= free < len && !Taken(htab, x.hval, free);
    var hi := Start(x.hval, len);
    d := 0;
    while htab[hi].rpos != 0
      invariant d <= free && hi == Around(Start(x.hval, len), d, len)
      invariant forall k | 0 <= k < d :: Taken(htab, x.hval, k)
      decreases len - d
    {
      assert Taken(htab, x.hval, d);
      hi := hi + 1;
      if hi == len {
        hi := 0;
      }
      d := d + 1;
    }
    TabledOneMore(htab, xs, dist, x, d, htab[hi := x], xs + [x], dist + [d]);
    OneMoreUsed(htab, hi, x);
    htab' := htab[hi := x];
  }

  // ---- Looking a hash up ------------------------------------------------------------------------

  /** At a free slot no record with this hash is left. */
  lemma FreeEnds(htab: seq<Rec>, xs: seq<Rec>, dist: seq<nat>, hval: nat, d: nat, j: nat)
    requires Tabled(htab, xs, dist) && d < |htab| && !Taken(htab, hval, d) && j < |xs| && xs[j].hval == hval
    ensures dist[j] < d
  {
    assert Seated(htab, xs[j], dist[j]);
  }

  /** The record with this hash at distance d is the one whose distance that is. */
  lemma HereIs(htab: seq<Rec>, xs: seq<Rec>, dist: seq<nat>, hval: nat, d: nat) returns (j: nat)
    requires Tabled(htab, xs, dist) && d < |htab| && Taken(htab, hval, d)
    requires htab[Around(Start(hval, |htab|), d, |htab|)].hval == hval
    ensures j < |xs| && dist[j] == d && xs[j] == htab[Around(Start(hval, |htab|), d, |htab|)]
  {
    var s := Around(Start(hval, |htab|), d, |htab|);
    assert SeatOrFree(htab, xs, dist, s);
    j :| 0 <= j < |xs| && SeatIs(htab, xs[j], dist[j], s);
    AroundOnce(Start(hval, |htab|), |htab|, d, dist[j]);
  }
}
