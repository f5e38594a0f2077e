// Reading a constant database: contrib/cdb/cdb_init.c and contrib/cdb/cdb_find.c.
module CdbFind {
  import opened Common
  import opened CdbFormat
  import opened CdbIndex
  import opened CdbTable
  import opened CdbPut
  import opened CdbReplace
  import opened CdbFinish
  import opened CdbLookup

  /** The database that was written: its records and where its tables are. */
  datatype Base = Base(es: seq<Entry>, hpos: seq<nat>, tabs: seq<seq<Rec>>, dists: seq<seq<nat>>)

  ghost predicate IsFile(mem: seq<Byte>, b: Base) {
    CdbFile(mem, b.es, b.hpos, b.tabs, b.dists)
  }

  /** What a slot shows; Outside is a key comparison that would read behind the end of the file. */
  datatype Look = Free | Next | Hit | Bad | Outside

  /** a - b in unsigned 32-bit arithmetic. */
  function Sub32(a: nat, b: nat): nat
    requires a < TWO32 && b < TWO32
  {
    if b <= a then a - b else a + TWO32 - b
  }

  /** The readers' check that a key of this length ends before limit; the subtraction may wrap. */
  predicate KeyRefused(limit: nat, klen: nat, pos: nat)
    requires limit < TWO32 && klen < TWO32
  {
    Sub32(limit, klen) < pos + 8
  }

  /** The record at pos has a key of this length that is not refused, and not all in the file. */
  ghost predicate KeyOutside(mem: seq<Byte>, limit: nat, pos: nat, klen: nat) {
    && pos + 8 <= limit <= |mem| && limit < TWO32 && klen < TWO32
    && NumAt(mem, pos) == klen && !KeyRefused(limit, klen, pos) && pos + 8 + klen > |mem|
  }

  /** The check refuses exactly the keys that pass the limit if and only if the key is no longer than the limit. */
  lemma KeyCheckExact(limit: nat, klen: nat)
    requires 8 <= limit < TWO32 && klen < TWO32
    ensures (forall pos: nat | pos + 8 <= limit :: KeyRefused(limit, klen, pos) <==> pos + 8 + klen > limit) <==>
            klen <= limit
  {
    if klen > limit {
      assert !KeyRefused(limit, klen, 0);
    }
  }

  /** struct cdb. */
  class Cdb {
    const mem: seq<Byte>
    const fsize: nat
    const dend: nat
    var vpos: nat
    var vlen: nat
    var kpos: nat
    var klen: nat

    /** cdb_init_offset: the database is the part of the file behind offset. */
    constructor (file: seq<Byte>, offset: nat)
      requires HEADER <= |file| < TWO32 && offset <= |file| - HEADER
      ensures mem == file[offset..] && Bounded()
      ensures HEADER <= NumAt(mem, 0) < |mem| ==> dend == NumAt(mem, 0)
      ensures NumAt(mem, 0) < HEADER ==> dend == HEADER
      ensures NumAt(mem, 0) >= |mem| && NumAt(mem, 0) >= HEADER ==> dend == |mem|
      ensures vpos == vlen == kpos == klen == 0
      ensures forall b | IsFile(mem, b) :: Opened(b)
    {
      mem := file[offset..];
      fsize := |file| - offset;
      var d := NumAt(file[offset..], 0);
      dend := if d < HEADER then HEADER else if d >= |file| - offset then |file| - offset else d;
      vpos, vlen, kpos, klen := 0, 0, 0, 0;
      new;
      forall b | IsFile(mem, b) ensures Opened(b) {
        ReadToc(mem, b, 0);
      }
    }

    ghost predicate Bounded() {
      fsize == |mem| < TWO32 && HEADER <= dend <= fsize
    }

    /** This is the database b, and its data ends at dend. */
    ghost predicate Opened(b: Base) {
      Bounded() && IsFile(mem, b) && dend == HEADER + |Data(b.es)|
    }

    /** cdb_get: the bytes, if they are inside the file. */
    function Get(len: nat, pos: nat): (r: Option<seq<Byte>>)
      requires Bounded()
      ensures r.Some? <==> pos + len <= |mem|
      ensures r.Some? ==> Holds(mem, pos, r.value) && |r.value| == len
    {
      if pos > fsize || fsize - pos < len then None else Some(mem[pos..pos + len])
    }

    /** The record found last is this one. */
    ghost predicate Found(e: Entry)
      reads this
    {
      && kpos + klen == vpos && vpos + vlen <= |mem|
      && mem[kpos..kpos + klen] == e.key && mem[vpos..vpos + vlen] == e.val
    }

    /** The record e is at this position, and ends before limit. */
    ghost predicate IsRecord(limit: nat, pos: nat, e: Entry) {
      Sound(e) && Holds(mem, pos, e.bytes) && pos + |e.bytes| <= limit
    }

    /** A record with the right hash: is it the key's?  Lengths must stay below limit. */
    method TryRecord(limit: nat, pos0: nat, key: seq<Byte>, ghost e: Entry) returns (look: Look)
      requires HEADER <= limit <= |mem| < TWO32 && (|key| <= limit || limit == |mem|)
      modifies this
      ensures !look.Free?
      ensures look.Outside? <==> KeyOutside(mem, limit, pos0, |key|)
      ensures look.Hit? ==>
              kpos == pos0 + 8 && klen == |key| && Holds(mem, kpos, key) && vpos == kpos + klen && vpos + vlen <= limit
      ensures IsRecord(limit, pos0, e) ==>
                look == (if e.key == key then Hit else Next) && (e.key == key ==> Found(e))
    {
      if Sound(e) && Holds(mem, pos0, e.bytes) {
        RecordFields(mem, pos0, e.key, e.val);
      }
      var pos := pos0;
      if pos > limit - 8 {
        return Bad;
      }
      if NumAt(mem, pos) != |key| {
        return Next;
      }
      if KeyRefused(limit, |key|, pos) {
        return Bad;
      }
      if pos + 8 + |key| > |mem| {
        return Outside;
      }
      if mem[pos + 8..pos + 8 + |key|] != key {
        return Next;
      }
      var n := NumAt(mem, pos + 4);
      pos := pos + 8;
      if limit < n || limit - n < pos + |key| {
        return Bad;
      }
      kpos, klen := pos, |key|;
      vpos, vlen := pos + |key|, n;
      look := Hit;
    }

    /** The slot at htp has the key's hash and a record whose key is not all in the file. */
    ghost predicate SlotOutside(limit: nat, htp: nat, hval: nat, klen: nat)
      requires htp + 8 <= |mem|
    {
      NumAt(mem, htp + 4) != 0 && NumAt(mem, htp) == hval && KeyOutside(mem, limit, NumAt(mem, htp + 4), klen)
    }

    /** The slot at htp: free, someone else's, or the key's. */
    method LookAtSlot(limit: nat, htp: nat, hval: nat, key: seq<Byte>, ghost e: Entry) returns (look: Look)
      requires HEADER <= limit <= |mem| < TWO32 && htp + 8 <= |mem| && (|key| <= limit || limit == |mem|)
      modifies this
      ensures look.Outside? <==> SlotOutside(limit, htp, hval, |key|)
      ensures look.Free? <==> NumAt(mem, htp + 4) == 0
      ensures NumAt(mem, htp + 4) != 0 && NumAt(mem, htp) != hval ==> look.Next?
      ensures look.Hit? ==> klen == |key| && Holds(mem, kpos, key) && vpos == kpos + klen && vpos + vlen <= limit
      ensures NumAt(mem, htp + 4) != 0 && NumAt(mem, htp) == hval && IsRecord(limit, NumAt(mem, htp + 4), e) ==>
                look == (if e.key == key then Hit else Next) && (e.key == key ==> Found(e))
    {
      var pos := NumAt(mem, htp + 4);
      if pos == 0 {
        return Free;
      }
      look := Next;
      if NumAt(mem, htp) == hval {
        look := TryRecord(limit, pos, key, e);
      }
    }

    /** The key's table: where it is and how many slots it has; 0 when it is empty, -1 when that cannot be. */
    method OpenTable(hval: nat, ghost key: seq<Byte>, ghost b: Base) returns (r: int, htab: nat, n: nat)
      requires Bounded() && hval == Hash(key)
      ensures htab == NumAt(mem, 8 * (hval % 256)) && n == NumAt(mem, 8 * (hval % 256) + 4)
      ensures r == if n == 0 then 0 else if dend <= htab && htab + 8 * n <= |mem| then 1 else -1
      ensures Opened(b) ==> r == (if n == 0 then 0 else 1) && Probing(mem, b, key, 0, 0, htab, n)
    {
      if Opened(b) {
        ReadToc(mem, b, hval % 256);
        NothingSeen(b.es, key, b.dists[hval % 256]);
      }
      var htp := hval * 8 % 2048;
      TocIndex(hval);
      n := NumAt(mem, htp + 4);
      htab := NumAt(mem, htp);
      if n == 0 {
        return 0, htab, n;
      }
      if n > fsize / 8 || htab < dend || htab > fsize || n * 8 > fsize - htab {
        return -1, htab, n;
      }
      r := 1;
    }

    /** One slot of the search: in database b it shows the key's next record, or that there is none. */
    method Step(limit: nat, htab: nat, n: nat, htp: nat, hval: nat, key: seq<Byte>, ghost b: Base, ghost f: nat,
        ghost d: nat) returns (look: Look)
      requires Bounded() && dend <= limit <= fsize && hval == Hash(key)
      requires |key| <= limit || limit == |mem|
      requires d < n && htp == htab + 8 * Around(Start(hval, n), d, n) && htab + 8 * n <= |mem|
      modifies this
      ensures look.Outside? <==> SlotOutside(limit, htp, hval, |key|)
      ensures look.Outside? ==> |key| > limit
      ensures look.Hit? ==> klen == |key| && Holds(mem, kpos, key) && vpos == kpos + klen && vpos + vlen <= limit
      ensures Opened(b) && Probing(mem, b, key, f, d, htab, n) ==>
                Means(look, mem, b, key, f, d, htab, n) && (look.Hit? ==> Found(Matches(b.es, key)[f]))
    {
      ghost var e := MakeEntry([], [], true);
      ghost var good := Opened(b) && Probing(mem, b, key, f, d, htab, n);
      ghost var m: nat := 0;
      if good {
        SlotSays(mem, b, hval % 256, Around(Start(hval, n), d, n));
        if NumAt(mem, htp + 4) != 0 && NumAt(mem, htp) == hval {
          m := SlotEntry(mem, b, key, d);
          EntryThere(mem, b, m);
          EntryMeans(mem, b, key, f, d, htab, n, m);
          e := b.es[m];
        } else if NumAt(mem, htp + 4) != 0 {
          OtherHashMeans(mem, b, key, f, d, htab, n);
        } else {
          FreeMeans(mem, b, key, f, d, htab, n);
        }
      }
      look := LookAtSlot(limit, htp, hval, key, e);
    }

    /**
     * cdb_find: the first record added with the key, or 0 when there is none.  On any other file
     * it may also fail, but never looks outside of it.
     */
    method Find(key: seq<Byte>, ghost b: Base) returns (r: int)
      requires Bounded()
      modifies this
      ensures r == 1 ==> klen == |key| && Holds(mem, kpos, key) && vpos == kpos + klen && vpos + vlen <= dend
      ensures Opened(b) ==> if Matches(b.es, key) == [] then r == 0 else r == 1 && Found(Matches(b.es, key)[0])
    {
      if |key| >= dend {
        if Opened(b) {
          TooLong(b.es, key);
        }
        return 0;
      }
      var hval := CdbHash(key);
      var htab, n;
      r, htab, n := OpenTable(hval, key, b);
      if r != 1 {
        if Opened(b) {
          FreeMeans(mem, b, key, 0, 0, htab, n);
        }
        return;
      }
      r := Search(htab, n, hval, key, b);
    }

    /** The loop of cdb_find. */
    method Search(htab: nat, n: nat, hval: nat, key: seq<Byte>, ghost b: Base) returns (r: int)
      requires Bounded() && |key| < dend && hval == Hash(key) && n > 0 && htab + 8 * n <= |mem|
      requires Opened(b) ==> Probing(mem, b, key, 0, 0, htab, n)
      modifies this
      ensures r == 1 ==> klen == |key| && Holds(mem, kpos, key) && vpos == kpos + klen && vpos + vlen <= dend
      ensures Opened(b) ==> if Matches(b.es, key) == [] then r == 0 else r == 1 && Found(Matches(b.es, key)[0])
    {
      var httodo := n * 8;
      var htend := htab + httodo;
      var htp := htab + Start(hval, n) * 8;
      ghost var d: nat := 0;
      while true
        invariant d < n && httodo == 8 * (n - d) && htp == htab + 8 * Around(Start(hval, n), d, n)
        invariant Opened(b) ==> Probing(mem, b, key, 0, d, htab, n)
        decreases httodo
      {
        var look := Step(dend, htab, n, htp, hval, key, b, 0, d);
        if !look.Next? {
          return match look case Free => 0 case Hit => 1 case _ => -1;
        }
        httodo := httodo - 8;
        if httodo == 0 {
          if Opened(b) {
            FreeMeans(mem, b, key, 0, n, htab, n);
          }
          return 0;
        }
        htp := htp + 8;
        if htp >= htend {
          htp := htab;
        }
        d := d + 1;
      }
    }
  }

  /** The table of contents of a finished file. */
  lemma ReadToc(mem: seq<Byte>, b: Base, t: nat)
    requires IsFile(mem, b) && t < 256
    ensures 8 * t + 8 <= HEADER <= |mem| && NumAt(mem, 8 * t) == b.hpos[t] && NumAt(mem, 8 * t + 4) == |b.tabs[t]|
    ensures HEADER + |Data(b.es)| <= b.hpos[t] && b.hpos[t] + 8 * |b.tabs[t]| <= |mem|
    ensures TableOk(mem, b.es, t, b.hpos[t], b.tabs[t], b.dists[t])
  {
    assert TableOk(mem, b.es, t, b.hpos[t], b.tabs[t], b.dists[t]);
    assert SlotReads(mem, 0, Toc(b.hpos, b.tabs), t);
  }

  /** (hval << 3) & 2047 is the place of list hval % 256 in the contents. */
  lemma TocIndex(hval: nat)
    ensures hval * 8 % 2048 == 8 * (hval % 256)
  {
    var q := hval / 256;
    assert hval * 8 == 2048 * q + 8 * (hval % 256);
  }

  /** A key as long as the data section is in no record. */
  lemma TooLong(es: seq<Entry>, key: seq<Byte>)
    requires AllSound(es) && |key| >= HEADER + |Data(es)|
    ensures Matches(es, key) == []
  {
    forall n | 0 <= n < |es| ensures !IsMatch(es[n], key) {
      assert Sound(es[n]);
      RecordAt(es, n);
    }
    NoMatches(es, key);
  }

  /** A reader of database b has seen f records of the key and is d slots into its table. */
  ghost predicate Probing(mem: seq<Byte>, b: Base, key: seq<Byte>, f: nat, d: nat, htab: nat, n: nat) {
    && IsFile(mem, b)
    && htab == b.hpos[Hash(key) % 256] && n == |b.tabs[Hash(key) % 256]|
    && Seen(b.es, key, b.dists[Hash(key) % 256], f, d)
  }

  /** The table that is being read. */
  lemma TableServes(mem: seq<Byte>, b: Base, key: seq<Byte>)
    requires IsFile(mem, b)
    ensures var t := Hash(key) % 256; Serves(b.tabs[t], b.es, t, b.dists[t])
  {
    var t := Hash(key) % 256;
    assert TableOk(mem, b.es, t, b.hpos[t], b.tabs[t], b.dists[t]);
  }

  /** What the bytes of a slot say. */
  lemma SlotSays(mem: seq<Byte>, b: Base, t: nat, s: nat)
    requires IsFile(mem, b) && t < 256 && s < |b.tabs[t]|
    ensures b.hpos[t] + 8 * s + 8 <= |mem|
    ensures NumAt(mem, b.hpos[t] + 8 * s) == b.tabs[t][s].hval && NumAt(mem, b.hpos[t] + 8 * s + 4) == b.tabs[t][s].rpos
  {
    assert TableOk(mem, b.es, t, b.hpos[t], b.tabs[t], b.dists[t]);
    assert SlotReads(mem, b.hpos[t], b.tabs[t], s);
  }

  /** Entries are where their positions say. */
  lemma EntryThere(mem: seq<Byte>, b: Base, m: nat)
    requires IsFile(mem, b) && m < |b.es|
    ensures Sound(b.es[m]) && Holds(mem, Offset(b.es, m), b.es[m].bytes)
    ensures Offset(b.es, m) + |b.es[m].bytes| <= HEADER + |Data(b.es)| <= |mem|
  {
    RecordAt(b.es, m);
    var at, bytes := |Data(b.es[..m])|, b.es[m].bytes;
    SubSlice(mem, HEADER, HEADER + |Data(b.es)|, at, at + |bytes|);
  }

  /** The entry a slot with the key's hash points to. */
  lemma SlotEntry(mem: seq<Byte>, b: Base, key: seq<Byte>, d: nat) returns (m: nat)
    requires IsFile(mem, b) && d < |b.tabs[Hash(key) % 256]|
    requires var t := Hash(key) % 256; var x := b.tabs[t][Around(Start(Hash(key), |b.tabs[t]|), d,
             |b.tabs[t]|)]; x.rpos != 0 && x.hval == Hash(key)
    ensures m < |b.es| && InList(b.es[m], Hash(key) % 256) && b.es[m].hval == Hash(key)
    ensures var t := Hash(key) % 256;
            && b.tabs[t][Around(Start(Hash(key), |b.tabs[t]|), d, |b.tabs[t]|)].rpos == Offset(b.es, m)
            && DistOf(b.es, t, b.dists[t], m) == d
  {
    var t := Hash(key) % 256;
    TableServes(mem, b, key);
    m := EntryAt(b.tabs[t], b.es, key, b.dists[t], d);
  }

  /** What looking at the slot d steps from the start means for the search. */
  ghost predicate Means(look: Look, mem: seq<Byte>, b: Base, key: seq<Byte>, f: nat, d: nat, htab: nat, n: nat) {
    match look
    case Free => f == |Matches(b.es, key)|
    case Next => Probing(mem, b, key, f, d + 1, htab, n)
    case Hit => f < |Matches(b.es, key)| && Probing(mem, b, key, f + 1, d + 1, htab, n)
    case _ => false
  }

  lemma FreeMeans(mem: seq<Byte>, b: Base, key: seq<Byte>, f: nat, d: nat, htab: nat, n: nat)
    requires Probing(mem, b, key, f, d, htab, n)
    requires d < n ==> b.tabs[Hash(key) % 256][Around(Start(Hash(key), n), d, n)].rpos == 0
    ensures f == |Matches(b.es, key)|
  {
    TableServes(mem, b, key);
    SeenAll(b.tabs[Hash(key) % 256], b.es, key, b.dists[Hash(key) % 256], f, d);
  }

  lemma OtherHashMeans(mem: seq<Byte>, b: Base, key: seq<Byte>, f: nat, d: nat, htab: nat, n: nat)
    requires Probing(mem, b, key, f, d, htab, n) && d < n
    requires b.tabs[Hash(key) % 256][Around(Start(Hash(key), n), d, n)].hval != Hash(key)
    ensures Probing(mem, b, key, f, d + 1, htab, n)
  {
    var t := Hash(key) % 256;
    TableServes(mem, b, key);
    OtherHash(b.tabs[t], b.es, key, b.dists[t], d);
    SeenOn(b.tabs[t], b.es, key, b.dists[t], f, d);
  }

  lemma EntryMeans(mem: seq<Byte>, b: Base, key: seq<Byte>, f: nat, d: nat, htab: nat, n: nat, m: nat)
    requires Probing(mem, b, key, f, d, htab, n) && d < n
    requires m < |b.es| && InList(b.es[m], Hash(key) % 256) && b.es[m].hval == Hash(key)
             && DistOf(b.es, Hash(key) % 256, b.dists[Hash(key) % 256], m) == d
    ensures b.es[m].key == key ==>
            f < |Matches(b.es, key)| && Matches(b.es, key)[f] == b.es[m] && Probing(mem, b, key, f + 1, d + 1, htab, n)
    ensures b.es[m].key != key ==> Probing(mem, b, key, f, d + 1, htab, n)
  {
    var t := Hash(key) % 256;
    TableServes(mem, b, key);
    if b.es[m].key == key {
      SeenNext(b.tabs[t], b.es, key, b.dists[t], f, d, m);
    } else {
      OtherKey(b.tabs[t], b.es, key, b.dists[t], d, m);
      SeenOn(b.tabs[t], b.es, key, b.dists[t], f, d);
    }
  }
}
