// All records of a key: cdb_findinit and cdb_findnext of contrib/cdb/cdb_find.c.
module CdbScan {
  import opened Common
  import opened CdbFormat
  import opened CdbTable
  import opened CdbReplace
  import opened CdbFind

  /** struct cdb_find: a search that can be continued. */
  class Finder {
    const cdb: Cdb
    const key: seq<Byte>
    const hval: nat
    const htab: nat
    const htend: nat
    var htp: nat
    var httodo: nat
    /** The slots of the table, and how many of them were looked at. */
    ghost const slots: nat
    ghost var seen: nat

    ghost predicate Valid()
      reads this
    {
      && cdb.Bounded() && hval == Hash(key)
      && seen <= slots && httodo == 8 * (slots - seen) && htab + 8 * slots <= |cdb.mem| && htend == htab + 8 * slots
      && (seen < slots ==> htp == htab + 8 * Around(Start(hval, slots), seen, slots))
    }

    /** In database b, f records of the key were found so far. */
    ghost predicate Reached(b: Base, f: nat)
      reads this
    {
      cdb.Opened(b) && Probing(cdb.mem, b, key, f, seen, htab, slots)
    }

    /** A search in this table that has looked at no slot yet. */
    ghost predicate Begun(cdb: Cdb, key: seq<Byte>, htab: nat, n: nat)
      reads this
    {
      Valid() && this.cdb == cdb && this.key == key && this.htab == htab && seen == 0 && slots == n
    }

    constructor (cdb: Cdb, key: seq<Byte>, hval: nat, htab: nat, n: nat)
      requires cdb.Bounded() && hval == Hash(key) && htab + 8 * n <= |cdb.mem|
      ensures Begun(cdb, key, htab, n)
    {
      this.cdb, this.key, this.hval, this.htab := cdb, key, hval, htab;
      htend := htab + 8 * n;
      htp := if n == 0 then htab else htab + Start(hval, n) * 8;
      httodo := n * 8;
      slots, seen := n, 0;
    }

    /** The slot to look at next has a record whose key is not all in the file, and the check lets it pass. */
    ghost predicate NextOutside()
      requires Valid()
      reads this
    {
      seen < slots && cdb.SlotOutside(cdb.fsize, htp, hval, |key|)
    }

    /** One turn of the loop: a slot is looked at and, unless it is free, left behind. */
    method LookOn(ghost b: Base, ghost f: nat) returns (look: Look)
      requires Valid() && httodo > 0
      modifies this, cdb
      ensures Valid() && seen == old(seen) + (if look.Free? then 0 else 1)
      ensures look.Outside? <==> old(NextOutside())
      ensures look.Outside? ==> |key| > cdb.fsize
      ensures look.Hit? ==> InFile()
      ensures old(Reached(b, f)) && !look.Hit? ==> (look.Free? || look.Next?) && Reached(b, f)
      ensures old(Reached(b, f)) && look.Free? ==> f == |Matches(b.es, key)|
      ensures old(Reached(b, f)) && look.Hit? ==> HasFound(b, f)
    {
      look := cdb.Step(cdb.fsize, htab, SlotCount(), htp, hval, key, b, f, seen);
      if !look.Free? {
        htp := htp + 8;
        if htp >= htend {
          htp := htab;
        }
        httodo := httodo - 8;
        seen := seen + 1;
      }
    }

    /** The record found has the key, and ends in the file. */
    ghost predicate InFile()
      reads this, cdb
    {
      && cdb.klen == |key| && Holds(cdb.mem, cdb.kpos, key)
      && cdb.vpos == cdb.kpos + cdb.klen && cdb.vpos + cdb.vlen <= |cdb.mem|
    }

    /** The record found is the key's next one. */
    ghost predicate HasFound(b: Base, f: nat)
      reads this, cdb
    {
      f < |Matches(b.es, key)| && cdb.Found(Matches(b.es, key)[f]) && Reached(b, f + 1)
    }

    /**
     * cdb_findnext: the key's next record in the order they were added, or 0 after the last one.
     * Only a key longer than the file can be compared with bytes outside of it.
     */
    method Next(ghost b: Base, ghost f: nat) returns (r: int, outside: bool)
      requires Valid()
      modifies this, cdb
      ensures Valid()
      ensures outside ==> |key| > cdb.fsize && r == -1
      ensures old(NextOutside()) ==> outside
      ensures r == 1 ==> InFile()
      ensures old(Reached(b, f)) ==>
                if f < |Matches(b.es, key)| then r == 1 && HasFound(b, f) else r == 0 && Reached(b, f)
    {
      ghost var good, first := Reached(b, f), NextOutside();
      while httodo > 0
        invariant Valid() && (good ==> Reached(b, f))
        invariant first ==> NextOutside()
        decreases httodo
      {
        var look := LookOn(b, f);
        if !look.Next? {
          return match look case Free => 0 case Hit => 1 case _ => -1, look.Outside?;
        }
      }
      if good {
        FreeMeans(cdb.mem, b, key, f, seen, htab, slots);
      }
      return 0, false;
    }

    /** The number of slots, from the ends of the table. */
    function SlotCount(): (n: nat)
      requires Valid()
      reads this
      ensures n == slots
    {
      (htend - htab) / 8
    }
  }

  /** cdb_findinit: 0 when the key's table is empty, 1 when the search can begin. */
  method FindInit(cdb: Cdb, key: seq<Byte>, ghost b: Base) returns (r: int, finder: Finder?)
    requires cdb.Bounded()
    ensures var t := 8 * (Hash(key) % 256);
            && (r == 1 <==>
                NumAt(cdb.mem, t + 4) > 0 && cdb.dend <= NumAt(cdb.mem, t)
                    && NumAt(cdb.mem, t) + 8 * NumAt(cdb.mem, t + 4) <= |cdb.mem|)
            && (r == 1 ==>
                finder != null && fresh(finder) && finder.Begun(cdb, key, NumAt(cdb.mem, t), NumAt(cdb.mem, t + 4)))
    ensures cdb.Opened(b) ==> if r == 0 then Matches(b.es, key) == [] else r == 1 && finder.Reached(b, 0)
  {
    var hval := CdbHash(key);
    var htab, n;
    r, htab, n := cdb.OpenTable(hval, key, b);
    finder := null;
    if r == 1 {
      finder := new Finder(cdb, key, hval, htab, n);
    } else if cdb.Opened(b) {
      FreeMeans(cdb.mem, b, key, 0, 0, htab, n);
    }
  }

  ghost function Values(es: seq<Entry>): (r: seq<seq<Byte>>)
    ensures |r| == |es|
  {
    seq(|es|, i requires 0 <= i < |es| => es[i].val)
  }

  /** These are the values of the first records. */
  ghost predicate Collected(vals: seq<seq<Byte>>, es: seq<Entry>) {
    |vals| <= |es| && forall i | 0 <= i < |vals| :: vals[i] == es[i].val
  }

  lemma CollectedMore(vals: seq<seq<Byte>>, es: seq<Entry>, val: seq<Byte>)
    requires Collected(vals, es) && |vals| < |es| && val == es[|vals|].val
    ensures Collected(vals + [val], es)
  {
  }

  lemma CollectedAll(vals: seq<seq<Byte>>, es: seq<Entry>)
    requires Collected(vals, es) && |vals| == |es|
    ensures vals == Values(es)
  {
  }

  /** All values of a key, one by one, in the order they were added, and then no more. */
  method AllValues(cdb: Cdb, key: seq<Byte>, ghost b: Base) returns (vals: seq<seq<Byte>>)
    requires cdb.Opened(b)
    modifies cdb
    ensures vals == Values(Matches(b.es, key))
  {
    vals := [];
    var r, finder := FindInit(cdb, key, b);
    if r == 1 {
      vals := ValuesFrom(finder, b);
    }
  }

  /** The loop over cdb_findnext. */
  method ValuesFrom(finder: Finder, ghost b: Base) returns (vals: seq<seq<Byte>>)
    requires finder.Valid() && finder.Reached(b, 0)
    modifies finder, finder.cdb
    ensures vals == Values(Matches(b.es, finder.key))
  {
    vals := [];
    ghost var es := Matches(b.es, finder.key);
    var cdb := finder.cdb;
    var r, outside := finder.Next(b, 0);
    while r == 1
      invariant finder.Valid() && Collected(vals, es)
      invariant if r == 1 then finder.HasFound(b, |vals|) else |vals| == |es|
      decreases |es| - |vals| + (if r == 1 then 1 else 0)
    {
      CollectedMore(vals, es, cdb.mem[cdb.vpos..cdb.vpos + cdb.vlen]);
      vals := vals + [cdb.mem[cdb.vpos..cdb.vpos + cdb.vlen]];
      r, outside := finder.Next(b, |vals|);
    }
    CollectedAll(vals, es);
  }

  // ---- A key longer than the file --------------------------------------------------------------------

  /** A table of contents whose first n lists are one slot each, all at the same position. */
  function Lists(n: nat, pos: nat): (r: seq<Byte>)
    requires pos < TWO32
    ensures |r| == 8 * n
  {
    if n == 0 then [] else Lists(n - 1, pos) + Pack(pos) + Pack(1)
  }

  lemma {:induction false} ListsRead(n: nat, pos: nat, t: nat)
    requires pos < TWO32 && t < n
    ensures NumAt(Lists(n, pos), 8 * t) == pos && NumAt(Lists(n, pos), 8 * t + 4) == 1
  {
    var all := Lists(n, pos);
    if t == n - 1 {
      UnpackPack(pos);
      UnpackPack(1);
      assert all[8 * t..8 * t + 4] == Pack(pos) && all[8 * t + 4..8 * t + 8] == Pack(1);
    } else {
      ListsRead(n - 1, pos, t);
      var front := Lists(n - 1, pos);
      assert all[8 * t..8 * t + 4] == front[8 * t..8 * t + 4];
      assert all[8 * t + 4..8 * t + 8] == front[8 * t + 4..8 * t + 8];
    }
  }

  /** A file of 2064 bytes: the contents, a header that announces a key of 3000 bytes, and one slot for it. */
  function ShortFile(hval: nat): (r: seq<Byte>)
    requires hval < TWO32
    ensures |r| == HEADER + 16
  {
    Lists(256, HEADER + 8) + (Pack(3000) + Pack(0) + Pack(hval) + Pack(HEADER))
  }

  lemma ShortFileReads(hval: nat, t: nat)
    requires hval < TWO32 && t < 256
    ensures var mem := ShortFile(hval);
            && NumAt(mem, 8 * t) == HEADER + 8 && NumAt(mem, 8 * t + 4) == 1 && NumAt(mem, HEADER) == 3000
            && NumAt(mem, HEADER + 8) == hval && NumAt(mem, HEADER + 12) == HEADER
  {
    var mem, lists := ShortFile(hval), Lists(256, HEADER + 8);
    ListsRead(256, HEADER + 8, t);
    assert mem[8 * t..8 * t + 4] == lists[8 * t..8 * t + 4] && mem[8 * t + 4..8 * t + 8] == lists[8 * t + 4..8 * t + 8];
    UnpackPack(3000);
    UnpackPack(hval);
    UnpackPack(HEADER);
    assert mem[HEADER..HEADER + 4] == Pack(3000);
    assert mem[HEADER + 8..HEADER + 12] == Pack(hval) && mem[HEADER + 12..HEADER + 16] == Pack(HEADER);
  }

  /** The key's list begins with a slot whose record announces a longer key than the file can hold. */
  ghost predicate Misleads(cdb: Cdb, key: seq<Byte>)
    requires cdb.Bounded()
  {
    var t := 8 * (Hash(key) % 256);
    var htab, n := NumAt(cdb.mem, t), NumAt(cdb.mem, t + 4);
    && n > 0 && cdb.dend <= htab && htab + 8 * n <= |cdb.mem| && Start(Hash(key), n) < n
    && cdb.SlotOutside(cdb.fsize, htab + 8 * Start(Hash(key), n), Hash(key), |key|)
  }

  /** Then the check lets the key pass, and it is compared with bytes outside the file. */
  method ComparesOutside(cdb: Cdb, key: seq<Byte>) returns (outside: bool)
    requires cdb.Bounded() && Misleads(cdb, key)
    modifies cdb
    ensures outside
  {
    ghost var none := Base([], [], [], []);
    var r, finder := FindInit(cdb, key, none);
    r, outside := finder.Next(none, 0);
  }

  /** There is such a file, for every key of 3000 bytes. */
  method ShortFileMisleads(key: seq<Byte>) returns (cdb: Cdb)
    requires |key| == 3000
    ensures cdb.mem == ShortFile(Hash(key)) && cdb.Bounded() && Misleads(cdb, key)
  {
    var hval := CdbHash(key);
    var file := ShortFile(hval);
    ShortFileReads(hval, 0);
    ShortFileReads(hval, hval % 256);
    cdb := new Cdb(file, 0);
    assert file[0..] == file;
    assert !KeyRefused(|file|, |key|, HEADER);
  }
}
