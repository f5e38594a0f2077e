// fill_hashv of contrib/aho-corasick/acism_create.c: the string numbers of states that are
// themselves patterns, by linear probing without wrap-around.
module AcHash {
  import opened AcTable

  const FREE := Strash(0, 0)

  /** e is at k, and from its hash up to k no cell is free. */
  ghost predicate Probed(hv: seq<Strash>, hashMod: nat, e: Strash, k: nat)
    requires hashMod > 0
  {
    && HashOf(e.state, hashMod) <= k < |hv| && hv[k] == e
    && forall j | HashOf(e.state, hashMod) <= j < k :: hv[j].state != 0
  }

  ghost predicate Findable(hv: seq<Strash>, hashMod: nat, e: Strash)
    requires hashMod > 0
  {
    exists k: nat :: Probed(hv, hashMod, e, k)
  }

  /** The cells in use hold exactly these entries, each where a probe finds it. */
  ghost predicate Stores(hv: seq<Strash>, hashMod: nat, items: set<Strash>)
    requires hashMod > 0
  {
    && (forall e {:trigger Findable(hv, hashMod, e)} | e in items :: Findable(hv, hashMod, e))
    && (forall k | 0 <= k < |hv| && hv[k].state != 0 :: hv[k] in items)
  }

  /** The number of cells in use. */
  ghost function InUse(hv: seq<Strash>): nat {
    if hv == [] then 0 else InUse(hv[..|hv| - 1]) + if hv[|hv| - 1].state != 0 then 1 else 0
  }

  lemma {:induction false} OneMoreInUse(hv: seq<Strash>, k: nat, e: Strash)
    requires k < |hv| && hv[k].state == 0 && e.state != 0
    ensures InUse(hv[k := e]) == InUse(hv) + 1
  {
    var n := |hv| - 1;
    if k == n {
      assert hv[k := e][..n] == hv[..n];
    } else {
      OneMoreInUse(hv[..n], k, e);
      assert hv[k := e][..n] == hv[..n][k := e];
    }
  }

  /** A run of cells in use is no longer than their number. */
  lemma {:induction false} RunInUse(hv: seq<Strash>, h: nat, i: nat)
    requires h <= i <= |hv| && forall j | h <= j < i :: hv[j].state != 0
    ensures i - h <= InUse(hv)
  {
    if hv != [] {
      var n := |hv| - 1;
      assert forall j | 0 <= j < n :: hv[..n][j] == hv[j];
      if i == |hv| {
        if h < i {
          RunInUse(hv[..n], h, n);
        }
      } else {
        RunInUse(hv[..n], h, i);
      }
    }
  }

  /** With a cell in use before it, a run is shorter than that. */
  lemma {:induction false} RunBehind(hv: seq<Strash>, c: nat, h: nat, i: nat)
    requires c < h <= i <= |hv| && hv[c].state != 0 && forall j | h <= j < i :: hv[j].state != 0
    ensures i - h < InUse(hv)
  {
    var n := |hv| - 1;
    assert forall j | 0 <= j < n :: hv[..n][j] == hv[j];
    if h == i {
      RunInUse(hv, c, c + 1);
    } else if i == |hv| {
      RunBehind(hv[..n], c, h, n);
    } else {
      RunBehind(hv[..n], c, h, i);
    }
  }

  /** An entry's own cell, below hashMod, is in use, by it or by another one. */
  lemma SomeOwnCell(hv: seq<Strash>, hashMod: nat, items: set<Strash>, e: Strash) returns (c: nat, m: nat)
    requires hashMod > 0 && Stores(hv, hashMod, items) && e in items && e.state != 0
    ensures c < hashMod && c < |hv| && hv[c].state != 0 && Probed(hv, hashMod, e, m)
  {
    assert Findable(hv, hashMod, e);
    m :| Probed(hv, hashMod, e, m);
    c := HashOf(e.state, hashMod);
  }

  lemma {:induction false} NoneInUse(hv: seq<Strash>)
    requires forall k | 0 <= k < |hv| :: hv[k].state == 0
    ensures InUse(hv) == 0
  {
    if hv != [] {
      NoneInUse(hv[..|hv| - 1]);
    }
  }

  /** Filling a free cell at the end of its probe keeps every other entry findable. */
  lemma StoresOneMore(hv: seq<Strash>, hashMod: nat, items: set<Strash>, e: Strash, k: nat)
    requires hashMod > 0 && Stores(hv, hashMod, items) && e.state != 0 && k < |hv| && hv[k].state == 0
    requires forall x | x in items :: x.state != 0
    requires HashOf(e.state, hashMod) <= k && forall j | HashOf(e.state, hashMod) <= j < k :: hv[j].state != 0
    ensures Stores(hv[k := e], hashMod, items + {e})
  {
    var hv' := hv[k := e];
    forall x {:trigger Findable(hv', hashMod, x)} | x in items + {e} ensures Findable(hv', hashMod, x) {
      if x == e {
        assert Probed(hv', hashMod, e, k);
      } else {
        assert Findable(hv, hashMod, x);
        var m: nat :| Probed(hv, hashMod, x, m);
        assert Probed(hv', hashMod, x, m);
      }
    }
  }

  /** The probe for a free cell, which is never out of room. */
  method Insert(hv: seq<Strash>, hashMod: nat, e: Strash, ghost items: set<Strash>, ghost room: nat)
    returns (hv': seq<Strash>)
    requires hashMod > 0 && Stores(hv, hashMod, items) && e.state != 0 && (forall x | x in items :: x.state != 0)
    requires InUse(hv) < room && hashMod + room <= |hv|
    ensures |hv'| == |hv| && Stores(hv', hashMod, items + {e}) && InUse(hv') == InUse(hv) + 1
  {
    var h := HashOf(e.state, hashMod);
    var i := h;
    RunInUse(hv, h, i);
    while hv[i].state != 0
      invariant h <= i < |hv| && (forall j | h <= j < i :: hv[j].state != 0)
      invariant i - h <= InUse(hv)
      decreases |hv| - i
    {
      i := i + 1;
      RunInUse(hv, h, i);
    }
    StoresOneMore(hv, hashMod, items, e, i);
    OneMoreInUse(hv, i, e);
    hv' := hv[i := e];
  }

  /** Entries with the same state are the same. */
  ghost predicate OneEach(items: set<Strash>) {
    forall x, y | x in items && y in items && x.state == y.state :: x == y
  }

  /** A findable entry is the first one with its state from its hash on. */
  lemma {:induction false} FirstFound(hv: seq<Strash>, hashMod: nat, items: set<Strash>, e: Strash, k: nat)
    returns (i: nat)
    requires hashMod > 0 && Stores(hv, hashMod, items) && OneEach(items) && e in items && e.state != 0
    requires HashOf(e.state, hashMod) <= k < |hv| && hv[k] == e
    ensures HashOf(e.state, hashMod) <= i <= k && hv[i] == e
    ensures forall j | HashOf(e.state, hashMod) <= j < i :: hv[j].state != e.state
    decreases k
  {
    i := k;
    if j :| HashOf(e.state, hashMod) <= j < k && hv[j].state == e.state {
      i := FirstFound(hv, hashMod, items, e, j);
    }
  }

  /**
   * hash_size: past the overflows behind hashMod, without trailing free cells.  No entry is cut off, and as one entry
   * at least is not among the overflows, the cells suffice.
   */
  method Trim(hv: seq<Strash>, hashMod: nat, ghost items: set<Strash>) returns (size: nat)
    requires hashMod > 0 && Stores(hv, hashMod, items) && items != {} && (forall x | x in items :: x.state != 0)
    requires hashMod + InUse(hv) <= |hv|
    ensures size <= |hv| && Stores(hv[..size], hashMod, items)
  {
    ghost var e :| e in items;
    ghost var c, m := SomeOwnCell(hv, hashMod, items, e);
    size := hashMod;
    RunBehind(hv, c, hashMod, size);
    while hv[size].state != 0
      invariant hashMod <= size < |hv| && (forall j | hashMod <= j < size :: hv[j].state != 0)
      invariant size - hashMod < InUse(hv)
      decreases |hv| - size
    {
      size := size + 1;
      RunBehind(hv, c, hashMod, size);
    }
    NothingBeyond(hv, hashMod, items, size);
    ghost var top := size;
    while hv[size - 1].state == 0
      invariant m < size <= top && forall k | size <= k < top :: hv[k].state == 0
      decreases size
    {
      size := size - 1;
    }
    Trimmed(hv, hashMod, items, size, top);
  }

  /** An overflowing entry is reached over cells in use only, so none is behind the first free one. */
  lemma NothingBeyond(hv: seq<Strash>, hashMod: nat, items: set<Strash>, size: nat)
    requires hashMod > 0 && Stores(hv, hashMod, items) && (forall x | x in items :: x.state != 0)
    requires hashMod <= size < |hv| && hv[size].state == 0
    ensures forall e: Strash, k: nat | e in items && Probed(hv, hashMod, e, k) :: k < size
  {
    forall e: Strash, k: nat | e in items && Probed(hv, hashMod, e, k) ensures k < size {
      assert HashOf(e.state, hashMod) <= size;
    }
  }

  lemma Trimmed(hv: seq<Strash>, hashMod: nat, items: set<Strash>, size: nat, top: nat)
    requires hashMod > 0 && Stores(hv, hashMod, items) && (forall x | x in items :: x.state != 0)
    requires size <= top <= |hv| && forall k | size <= k < top :: hv[k].state == 0
    requires forall e: Strash, k: nat | e in items && Probed(hv, hashMod, e, k) :: k < top
    ensures Stores(hv[..size], hashMod, items)
  {
    var cut := hv[..size];
    forall e {:trigger Findable(cut, hashMod, e)} | e in items ensures Findable(cut, hashMod, e) {
      assert Findable(hv, hashMod, e);
      var k: nat :| Probed(hv, hashMod, e, k);
      assert hv[k].state != 0;
      assert Probed(cut, hashMod, e, k);
    }
  }
}
