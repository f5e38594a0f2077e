// Why probing a finished table meets the records of a key one after the other, in the order they
// were added (contrib/cdb/cdb_find.c).
module CdbLookup {
  import opened Common
  import opened CdbFormat
  import opened CdbIndex
  import opened CdbTable
  import opened CdbPut
  import opened CdbReplace

  /** How many records with the key come before entry n. */
  ghost function Rank(es: seq<Entry>, key: seq<Byte>, n: nat): nat
    requires n <= |es|
  {
    |Matches(es[..n], key)|
  }

  lemma RankNext(es: seq<Entry>, key: seq<Byte>, n: nat)
    requires n < |es|
    ensures Rank(es, key, n + 1) == Rank(es, key, n) + if IsMatch(es[n], key) then 1 else 0
  {
    assert es[..n + 1] == es[..n] + [es[n]];
    MatchesSnoc(es[..n], es[n], es[..n + 1], key);
  }

  lemma {:induction false} RankRises(es: seq<Entry>, key: seq<Byte>, n: nat, m: nat)
    requires n < m <= |es| && IsMatch(es[n], key)
    ensures Rank(es, key, n) < Rank(es, key, m)
    decreases m
  {
    RankNext(es, key, m - 1);
    if n < m - 1 {
      RankRises(es, key, n, m - 1);
    }
  }

  /** The entry that is the f-th record with the key. */
  lemma {:induction false} MatchAt(es: seq<Entry>, key: seq<Byte>, f: nat) returns (n: nat)
    requires f < |Matches(es, key)|
    ensures n < |es| && IsMatch(es[n], key) && Rank(es, key, n) == f && Matches(es, key)[f] == es[n]
  {
    var k := |es| - 1;
    var init := es[..k];
    assert es == init + [es[k]];
    MatchesSnoc(init, es[k], es, key);
    if f < |Matches(init, key)| {
      n := MatchAt(init, key, f);
      assert es[..n] == init[..n];
    } else {
      n := k;
    }
  }

  /** Every match is one of them. */
  lemma RankInside(es: seq<Entry>, key: seq<Byte>, n: nat)
    requires n < |es| && IsMatch(es[n], key)
    ensures Rank(es, key, n) < |Matches(es, key)| && Matches(es, key)[Rank(es, key, n)] == es[n]
  {
    RankRises(es, key, n, |es|);
    assert es[..|es|] == es;
    var m := MatchAt(es, key, Rank(es, key, n));
    if m < n {
      RankRises(es, key, m, n);
    } else if n < m {
      RankRises(es, key, n, m);
    }
  }

  // ---- Along the table -------------------------------------------------------------------------------------

  /** A table that holds list t of the entries. */
  ghost predicate Serves(htab: seq<Rec>, es: seq<Entry>, t: nat, dist: seq<nat>) {
    AllSound(es) && Tabled(htab, Infos(es, t, HEADER), dist)
  }

  /** Entry n's distance in its table. */
  ghost function DistOf(es: seq<Entry>, t: nat, dist: seq<nat>, n: nat): nat
    requires n <= |es|
  {
    if Place(es, t, n) < |dist| then dist[Place(es, t, n)] else 0
  }

  lemma PlaceHolds(es: seq<Entry>, t: nat, n: nat)
    requires n < |es| && InList(es[n], t)
    ensures Place(es, t, n) < |Infos(es, t, HEADER)|
            && Infos(es, t, HEADER)[Place(es, t, n)] == Rec(es[n].hval, Offset(es, n))
  {
    var a, e, b := es[..n], es[n], es[n + 1..];
    assert es == a + [e] + b;
    InfosAround(a, e, b, es, t);
  }

  /** The first f records of the key are nearer than d, the others are not. */
  ghost predicate Seen(es: seq<Entry>, key: seq<Byte>, dist: seq<nat>, f: nat, d: nat) {
    && f <= |Matches(es, key)|
    && forall n {:trigger IsMatch(es[n], key)} | 0 <= n < |es| && IsMatch(es[n], key) ::
         DistOf(es, Hash(key) % 256, dist, n) < d <==> Rank(es, key, n) < f
  }

  lemma NothingSeen(es: seq<Entry>, key: seq<Byte>, dist: seq<nat>)
    ensures Seen(es, key, dist, 0, 0)
  {
  }

  /** Where a match sits: in list t, with the key's hash, at its distance. */
  lemma MatchSits(htab: seq<Rec>, es: seq<Entry>, key: seq<Byte>, dist: seq<nat>, n: nat)
    requires Serves(htab, es, Hash(key) % 256, dist) && n < |es| && IsMatch(es[n], key)
    ensures var t := Hash(key) % 256;
            && InList(es[n], t) && Place(es, t, n) < |dist|
            && Infos(es, t, HEADER)[Place(es, t, n)] == Rec(Hash(key), Offset(es, n))
            && DistOf(es, t, dist, n) < |htab|
  {
    var t := Hash(key) % 256;
    assert Sound(es[n]);
    PlaceHolds(es, t, n);
    assert Seated(htab, Infos(es, t, HEADER)[Place(es, t, n)], dist[Place(es, t, n)]);
  }

  /** A free slot, or the end of the table: all records of the key were seen. */
  lemma SeenAll(htab: seq<Rec>, es: seq<Entry>, key: seq<Byte>, dist: seq<nat>, f: nat, d: nat)
    requires Serves(htab, es, Hash(key) % 256, dist) && Seen(es, key, dist, f, d)
    requires d < |htab| ==> !Taken(htab, Hash(key), d)
    ensures f == |Matches(es, key)|
  {
    var t := Hash(key) % 256;
    if f < |Matches(es, key)| {
      var n := MatchAt(es, key, f);
      MatchSits(htab, es, key, dist, n);
      if d < |htab| {
        FreeEnds(htab, Infos(es, t, HEADER), dist, Hash(key), d, Place(es, t, n));
      }
    }
  }

  /** The entry of a record with the key's hash at distance d. */
  lemma EntryAt(htab: seq<Rec>, es: seq<Entry>, key: seq<Byte>, dist: seq<nat>, d: nat) returns (n: nat)
    requires Serves(htab, es, Hash(key) % 256, dist) && d < |htab| && Taken(htab, Hash(key), d)
    requires htab[Around(Start(Hash(key), |htab|), d, |htab|)].hval == Hash(key)
    ensures n < |es| && InList(es[n], Hash(key) % 256) && es[n].hval == Hash(key)
    ensures htab[Around(Start(Hash(key), |htab|), d, |htab|)].rpos == Offset(es, n)
    ensures DistOf(es, Hash(key) % 256, dist, n) == d
  {
    var t := Hash(key) % 256;
    var j := HereIs(htab, Infos(es, t, HEADER), dist, Hash(key), d);
    n := InfoIsEntry(es, t, HEADER, j);
  }

  /** Two records of one list at one distance are the same. */
  lemma SameDistance(htab: seq<Rec>, es: seq<Entry>, key: seq<Byte>, dist: seq<nat>, n: nat, m: nat)
    requires Serves(htab, es, Hash(key) % 256, dist) && n < |es| && m < |es|
    requires IsMatch(es[n], key) && InList(es[m], Hash(key) % 256) && es[m].hval == Hash(key)
    ensures n < m ==> DistOf(es, Hash(key) % 256, dist, n) < DistOf(es, Hash(key) % 256, dist, m)
    ensures m < n ==> DistOf(es, Hash(key) % 256, dist, m) < DistOf(es, Hash(key) % 256, dist, n)
  {
    var t := Hash(key) % 256;
    var xs := Infos(es, t, HEADER);
    MatchSits(htab, es, key, dist, n);
    PlaceHolds(es, t, m);
    var i, j := Place(es, t, n), Place(es, t, m);
    if n < m {
      PlaceRises(es, t, n, m);
      assert InTurn(xs, dist, i, j);
    } else if m < n {
      PlaceRises(es, t, m, n);
      assert InTurn(xs, dist, j, i);
    }
  }

  /** Nothing of the key's at this distance: on to the next one. */
  lemma SeenOn(htab: seq<Rec>, es: seq<Entry>, key: seq<Byte>, dist: seq<nat>, f: nat, d: nat)
    requires Serves(htab, es, Hash(key) % 256, dist) && Seen(es, key, dist, f, d) && d < |htab|
    requires forall n {:trigger IsMatch(es[n], key)} | 0 <= n < |es| && IsMatch(es[n], key) ::
             DistOf(es, Hash(key) % 256, dist, n) != d
    ensures Seen(es, key, dist, f, d + 1)
  {
  }

  /** A slot with another hash holds no record of the key. */
  lemma OtherHash(htab: seq<Rec>, es: seq<Entry>, key: seq<Byte>, dist: seq<nat>, d: nat)
    requires Serves(htab, es, Hash(key) % 256, dist) && d < |htab|
    requires htab[Around(Start(Hash(key), |htab|), d, |htab|)].hval != Hash(key)
    ensures forall n {:trigger IsMatch(es[n], key)} | 0 <= n < |es| && IsMatch(es[n], key) ::
            DistOf(es, Hash(key) % 256, dist, n) != d
  {
    var t := Hash(key) % 256;
    forall n {:trigger IsMatch(es[n], key)} | 0 <= n < |es| && IsMatch(es[n], key) ensures DistOf(es, t, dist, n) != d {
      MatchSits(htab, es, key, dist, n);
      assert Seated(htab, Infos(es, t, HEADER)[Place(es, t, n)], dist[Place(es, t, n)]);
    }
  }

  /** A slot with the hash but another key's record holds none of the key's. */
  lemma OtherKey(htab: seq<Rec>, es: seq<Entry>, key: seq<Byte>, dist: seq<nat>, d: nat, m: nat)
    requires Serves(htab, es, Hash(key) % 256, dist) && m < |es| && InList(es[m], Hash(key) % 256)
             && es[m].hval == Hash(key)
    requires DistOf(es, Hash(key) % 256, dist, m) == d && es[m].key != key
    ensures forall n {:trigger IsMatch(es[n], key)} | 0 <= n < |es| && IsMatch(es[n], key) ::
            DistOf(es, Hash(key) % 256, dist, n) != d
  {
    forall n {:trigger IsMatch(es[n], key)} | 0 <= n < |es| && IsMatch(es[n], key)
      ensures DistOf(es, Hash(key) % 256, dist, n) != d
    {
      SameDistance(htab, es, key, dist, n, m);
    }
  }

  /** The record found here is the next one of the key. */
  lemma SeenNext(htab: seq<Rec>, es: seq<Entry>, key: seq<Byte>, dist: seq<nat>, f: nat, d: nat, m: nat)
    requires Serves(htab, es, Hash(key) % 256, dist) && Seen(es, key, dist, f, d) && d < |htab|
    requires m < |es| && IsMatch(es[m], key) && DistOf(es, Hash(key) % 256, dist, m) == d
    ensures f < |Matches(es, key)| && Matches(es, key)[f] == es[m]
    ensures Seen(es, key, dist, f + 1, d + 1)
  {
    assert Sound(es[m]);
    RankInside(es, key, m);
    IsNext(htab, es, key, dist, f, d, m);
    forall k {:trigger IsMatch(es[k], key)} | 0 <= k < |es| && IsMatch(es[k], key)
      ensures DistOf(es, Hash(key) % 256, dist, k) < d + 1 <==> Rank(es, key, k) < f + 1
    {
      SameDistance(htab, es, key, dist, k, m);
      if k < m {
        RankRises(es, key, k, m);
      } else if m < k {
        RankRises(es, key, m, k);
      }
    }
  }

  lemma IsNext(htab: seq<Rec>, es: seq<Entry>, key: seq<Byte>, dist: seq<nat>, f: nat, d: nat, m: nat)
    requires Serves(htab, es, Hash(key) % 256, dist) && Seen(es, key, dist, f, d)
    requires m < |es| && IsMatch(es[m], key) && DistOf(es, Hash(key) % 256, dist, m) == d
    ensures Rank(es, key, m) == f
  {
    assert Sound(es[m]);
    RankInside(es, key, m);
    if Rank(es, key, m) > f {
      var n := MatchAt(es, key, f);
      SameDistance(htab, es, key, dist, n, m);
      if m < n {
        RankRises(es, key, m, n);
      }
      assert false;
    }
  }
}
