// Walking all records (cdb_seqnext) and finding one through the file alone (cdb_seek), both of
// contrib/cdb/cdb_make.c.
module CdbSeek {
  import opened Common
  import opened CdbFormat
  import opened CdbTable
  import opened CdbRemove
  import opened CdbReplace
  import opened CdbLookup
  import opened CdbFind

  // ---- All records in turn ---------------------------------------------------------------------------

  /** What is found at record i. */
  lemma RecordHere(mem: seq<Byte>, b: Base, i: nat)
    requires IsFile(mem, b) && i < |b.es|
    ensures var p, e := Offset(b.es, i), b.es[i];
            && p + 8 + |e.key| + |e.val| <= HEADER + |Data(b.es)| <= |mem|
            && NumAt(mem, p) == |e.key| && NumAt(mem, p + 4) == |e.val|
            && Holds(mem, p + 8, e.key) && Holds(mem, p + 8 + |e.key|, e.val)
            && Offset(b.es, i + 1) == p + 8 + |e.key| + |e.val|
  {
    EntryThere(mem, b, i);
    RecordFields(mem, Offset(b.es, i), b.es[i].key, b.es[i].val);
    OffsetNext(b.es, i);
  }

  /** a + b in unsigned 32-bit arithmetic. */
  function Add32(a: nat, b: nat): nat {
    (a + b) % TWO32
  }

  /** cdb_seqnext's check of the lengths of the record whose key is at pos; both subtractions and the sum may wrap. */
  predicate LengthsPass(dend: nat, pos: nat, klen: nat, vlen: nat)
    requires dend < TWO32 && klen < TWO32 && vlen < TWO32
  {
    !(Sub32(dend, klen) < pos || Sub32(dend, vlen) < Add32(pos, klen))
  }

  /**
   * No record inside the data is refused; and a record that passes is inside the data exactly when
   * neither length exceeds the end of the data.  Then the walk moves on; without that, it may stay
   * at the same record for ever.
   */
  lemma LengthsPassIff(dend: nat, pos: nat, klen: nat, vlen: nat)
    requires pos <= dend < TWO32 && klen < TWO32 && vlen < TWO32
    ensures pos + klen + vlen <= dend ==> LengthsPass(dend, pos, klen, vlen)
    ensures LengthsPass(dend, pos, klen, vlen) ==> (pos + klen + vlen <= dend <==> klen <= dend && vlen <= dend)
  {
  }

  /** A record that announces a value of 2^32 - 8 bytes passes, and the position behind it is its own. */
  lemma WalkStays(dend: nat, pos: nat)
    requires pos + 8 <= dend < TWO32 - 8
    ensures LengthsPass(dend, pos + 8, 0, TWO32 - 8) && Add32(Add32(pos + 8, 0), TWO32 - 8) == pos
  {
  }

  /** The record at pos in the data section of any file, as its two numbers say. */
  ghost predicate RecordRead(cdb: Cdb, pos: nat, next: nat)
    requires cdb.Bounded() && pos + 8 <= cdb.dend
    reads cdb
  {
    && cdb.kpos == pos + 8 && cdb.klen == NumAt(cdb.mem, pos) && cdb.vlen == NumAt(cdb.mem, pos + 4)
    && LengthsPass(cdb.dend, cdb.kpos, cdb.klen, cdb.vlen)
    && (cdb.klen <= cdb.dend && cdb.vlen <= cdb.dend ==>
          cdb.vpos == cdb.kpos + cdb.klen && next == cdb.vpos + cdb.vlen && pos < next <= cdb.dend)
  }

  /** The steps of cdb_seqnext.  In any file it refuses only records that leave the data section. */
  method ReadRecord(cdb: Cdb, pos0: nat) returns (r: int, next: nat)
    requires cdb.Bounded()
    modifies cdb
    ensures r == -1 || r == 0 || r == 1
    ensures r == 0 <==> pos0 + 8 > cdb.dend
    ensures r == 1 ==> RecordRead(cdb, pos0, next)
    ensures r == -1 ==> pos0 + 8 + NumAt(cdb.mem, pos0) + NumAt(cdb.mem, pos0 + 4) > cdb.dend
  {
    var pos := pos0;
    if pos > cdb.dend - 8 {
      return 0, pos;
    }
    var klen := NumAt(cdb.mem, pos);
    var vlen := NumAt(cdb.mem, pos + 4);
    pos := pos + 8;
    LengthsPassIff(cdb.dend, pos, klen, vlen);
    if !LengthsPass(cdb.dend, pos, klen, vlen) {
      return -1, pos;
    }
    cdb.kpos, cdb.klen := pos, klen;
    cdb.vpos, cdb.vlen := Add32(pos, klen), vlen;
    return 1, Add32(Add32(pos, klen), vlen);
  }

  /** cdb_seqnext: the record at pos and the position of the next one; 0 at the end of the data. */
  method SeqNext(cdb: Cdb, pos: nat, ghost b: Base, ghost i: nat) returns (r: int, next: nat)
    requires cdb.Bounded()
    modifies cdb
    ensures r == 0 <==> pos + 8 > cdb.dend
    ensures r == 1 ==> RecordRead(cdb, pos, next)
    ensures cdb.Opened(b) && i < |b.es| && pos == Offset(b.es, i) ==>
            r == 1 && cdb.Found(b.es[i]) && next == Offset(b.es, i + 1)
    ensures cdb.Opened(b) && pos == Offset(b.es, |b.es|) ==> r == 0
  {
    if cdb.Opened(b) {
      EndOffset(b.es);
      if i < |b.es| {
        RecordHere(cdb.mem, b, i);
      }
    }
    r, next := ReadRecord(cdb, pos);
  }

  lemma EndOffset(es: seq<Entry>)
    ensures Offset(es, |es|) == HEADER + |Data(es)|
  {
    assert es[..|es|] == es;
  }

  /** Every record once, in the order they stand in the file, up to the end of the data. */
  method AllRecords(cdb: Cdb, ghost b: Base) returns (keys: seq<seq<Byte>>, vals: seq<seq<Byte>>)
    requires cdb.Opened(b)
    modifies cdb
    ensures |keys| == |vals| == |b.es| && forall i | 0 <= i < |b.es| :: keys[i] == b.es[i].key && vals[i] == b.es[i].val
  {
    keys, vals := [], [];
    var pos := HEADER;
    assert b.es[..0] == [];
    var r := 1;
    while r == 1
      invariant |keys| == |vals| <= |b.es| && forall i | 0 <= i < |keys| ::
                keys[i] == b.es[i].key && vals[i] == b.es[i].val
      invariant r == 1 ==> pos == Offset(b.es, |keys|)
      invariant r != 1 ==> |keys| == |b.es|
      decreases |b.es| - |keys| + (if r == 1 then 1 else 0)
    {
      r, pos := SeqNext(cdb, pos, b, |keys|);
      if r == 1 {
        keys := keys + [cdb.mem[cdb.kpos..cdb.kpos + cdb.klen]];
        vals := vals + [cdb.mem[cdb.vpos..cdb.vpos + cdb.vlen]];
      }
    }
  }

  // ---- Through the file ----------------------------------------------------------------------------------

  /** The key at the file's position, read and compared 64 bytes at a time; -1 when the file ends. */
  method CompareKey(mem: seq<Byte>, fpos0: nat, key: seq<Byte>) returns (r: int, fpos: nat)
    ensures r == 1 && fpos0 <= |mem| ==> Holds(mem, fpos0, key)
    ensures fpos0 + |key| <= |mem| ==> r == if mem[fpos0..fpos0 + |key|] == key then 1 else 0
    ensures r == 1 ==> fpos == fpos0 + |key|
  {
    fpos := fpos0;
    var done: nat := 0;
    while done < |key|
      invariant done <= |key| && fpos == fpos0 + done
      invariant done > 0 ==> fpos <= |mem| && mem[fpos0..fpos] == key[..done]
    {
      var c := if |key| - done > 64 then 64 else |key| - done;
      if fpos + c > |mem| {
        return -1, fpos;
      }
      if fpos0 + |key| <= |mem| {
        ChunkDiffers(mem, fpos0, key, done, c);
      }
      if mem[fpos..fpos + c] != key[done..done + c] {
        return 0, fpos + c;
      }
      assert mem[fpos0..fpos + c] == (if done == 0 then [] else mem[fpos0..fpos]) + mem[fpos..fpos + c];
      assert key[..done + c] == key[..done] + key[done..done + c];
      fpos, done := fpos + c, done + c;
    }
    if done == 0 {
      assert key == [];
    } else {
      assert key[..|key|] == key;
    }
    r := 1;
  }

  /** Behind a header with these two lengths, the key ends where the file is. */
  ghost predicate BehindKey(mem: seq<Byte>, key: seq<Byte>, dlen: nat, fpos: nat) {
    var pos := fpos - |key| - 8;
    && 0 <= pos && fpos <= |mem| && Holds(mem, pos + 8, key)
    && NumAt(mem, pos) == |key| && NumAt(mem, pos + 4) == dlen
  }

  /** The record at pos, whose hash matched: 1 and the file at its value when the key is the one asked for. */
  method SeekRecord(mem: seq<Byte>, pos: nat, key: seq<Byte>, ghost e: Entry) returns (r: int, dlen: nat, fpos: nat)
    ensures r == 1 ==> BehindKey(mem, key, dlen, fpos)
    ensures Sound(e) && Holds(mem, pos, e.bytes) ==> r == if e.key == key then 1 else 0
    ensures Sound(e) && Holds(mem, pos, e.bytes) && r == 1 ==> dlen == |e.val| && Holds(mem, fpos, e.val)
  {
    if Sound(e) && Holds(mem, pos, e.bytes) {
      RecordFields(mem, pos, e.key, e.val);
    }
    dlen, fpos := 0, pos;
    if pos + 8 > |mem| {
      return -1, dlen, fpos;
    }
    fpos := pos + 8;
    r := 0;
    if NumAt(mem, pos) == |key| {
      dlen := NumAt(mem, pos + 4);
      r, fpos := CompareKey(mem, fpos, key);
    }
  }

  /** The right answer: 0 when the key is not there, else 1 with the file at the first value. */
  ghost predicate Answered(mem: seq<Byte>, b: Base, key: seq<Byte>, r: int, dlen: nat, fpos: nat) {
    if Matches(b.es, key) == [] then r == 0 else r == 1 && AtFirst(mem, b, key, dlen, fpos)
  }

  ghost predicate AtFirst(mem: seq<Byte>, b: Base, key: seq<Byte>, dlen: nat, fpos: nat)
    requires Matches(b.es, key) != []
  {
    dlen == |Matches(b.es, key)[0].val| && Holds(mem, fpos, Matches(b.es, key)[0].val)
  }

  /** One slot of the search through the file. */
  method SeekSlot(mem: seq<Byte>, at: nat, hval: nat, key: seq<Byte>, ghost b: Base, ghost d: nat, ghost htab: nat,
      ghost n: nat)
    returns (look: Look, seeked: bool, dlen: nat, fpos: nat)
    requires hval == Hash(key)
    ensures !seeked && look.Next? ==> fpos == at + 8
    ensures look.Hit? ==> BehindKey(mem, key, dlen, fpos)
    ensures IsFile(mem, b) && Probing(mem, b, key, 0, d, htab, n) && d < n
            && at == htab + 8 * Around(Start(hval, n), d, n) ==>
              Means(look, mem, b, key, 0, d, htab, n) && (look.Hit? ==> AtFirst(mem, b, key, dlen, fpos))
  {
    ghost var e := MakeEntry([], [], true);
    if IsFile(mem, b) && Probing(mem, b, key, 0, d, htab, n) && d < n && at == htab + 8 * Around(Start(hval, n), d, n) {
      e := SlotMeaning(mem, b, key, d, htab, n, at);
    }
    seeked, dlen, fpos := false, 0, at + 8;
    if at + 8 > |mem| {
      return Bad, seeked, dlen, fpos;
    }
    var pos := NumAt(mem, at + 4);
    if pos == 0 {
      return Free, seeked, dlen, fpos;
    }
    look := Next;
    if NumAt(mem, at) == hval {
      var r;
      r, dlen, fpos := SeekRecord(mem, pos, key, e);
      seeked := true;
      look := if r == 1 then Hit else if r == 0 then Next else Bad;
    }
  }

  /** The entry behind a slot, and what each outcome there means. */
  lemma SlotMeaning(mem: seq<Byte>, b: Base, key: seq<Byte>, d: nat, htab: nat, n: nat, at: nat) returns (e: Entry)
    requires Probing(mem, b, key, 0, d, htab, n) && d < n && at == htab + 8 * Around(Start(Hash(key), n), d, n)
    ensures at + 8 <= |mem|
    ensures NumAt(mem, at + 4) == 0 ==> Means(Free, mem, b, key, 0, d, htab, n)
    ensures NumAt(mem, at + 4) != 0 && NumAt(mem, at) != Hash(key) ==> Means(Next, mem, b, key, 0, d, htab, n)
    ensures NumAt(mem, at + 4) != 0 && NumAt(mem, at) == Hash(key) ==>
              && Sound(e) && Holds(mem, NumAt(mem, at + 4), e.bytes)
              && (e.key != key ==> Means(Next, mem, b, key, 0, d, htab, n))
              && (e.key == key ==> Means(Hit, mem, b, key, 0, d, htab, n) && Matches(b.es, key)[0] == e)
  {
    e := MakeEntry([], [], true);
    SlotSays(mem, b, Hash(key) % 256, Around(Start(Hash(key), n), d, n));
    if NumAt(mem, at + 4) == 0 {
      FreeMeans(mem, b, key, 0, d, htab, n);
    } else if NumAt(mem, at) != Hash(key) {
      OtherHashMeans(mem, b, key, 0, d, htab, n);
    } else {
      var m := SlotEntry(mem, b, key, d);
      EntryThere(mem, b, m);
      EntryMeans(mem, b, key, 0, d, htab, n, m);
      e := b.es[m];
    }
  }

  /**
   * cdb_seek: leaves the file at the first value added for the key, or answers 0.  The file is
   * sought only when the next slot is not where reading the last one ended.  In any file, an answer
   * of 1 leaves it behind a header and the key.
   */
  method Seek(mem: seq<Byte>, key: seq<Byte>, ghost b: Base) returns (r: int, dlen: nat, fpos: nat)
    ensures r == 1 ==> BehindKey(mem, key, dlen, fpos)
    ensures IsFile(mem, b) ==> Answered(mem, b, key, r, dlen, fpos)
  {
    var hval := CdbHash(key);
    var pos := hval % 256 * 8;
    ghost var good := IsFile(mem, b);
    if good {
      ReadToc(mem, b, hval % 256);
      NothingSeen(b.es, key, b.dists[hval % 256]);
    }
    dlen, fpos := 0, pos + 8;
    if pos + 8 > |mem| {
      return -1, dlen, fpos;
    }
    var htsize := NumAt(mem, pos + 4);
    var htstart := NumAt(mem, pos);
    if htsize == 0 {
      if good {
        FreeMeans(mem, b, key, 0, 0, htstart, 0);
      }
      return 0, dlen, fpos;
    }
    r, dlen, fpos := SeekFrom(mem, htstart, htsize, hval, key, fpos, b);
  }

  /** htstart + (hti << 3) on 32 bits. */
  function SlotPosition(htstart: nat, hti: nat): (p: nat)
    ensures htstart + 8 * hti < TWO32 ==> p == htstart + 8 * hti
  {
    (htstart + hti * 8) % TWO32
  }

  method SeekFrom(mem: seq<Byte>, htstart: nat, htsize: nat, hval: nat, key: seq<Byte>, fpos0: nat, ghost b: Base)
    returns (r: int, dlen: nat, fpos: nat)
    requires htsize > 0 && hval == Hash(key)
             && (IsFile(mem, b) ==> Probing(mem, b, key, 0, 0, htstart, htsize) && htstart + 8 * htsize < TWO32)
    ensures r == 1 ==> BehindKey(mem, key, dlen, fpos)
    ensures IsFile(mem, b) ==> Answered(mem, b, key, r, dlen, fpos)
  {
    var hti, httodo, needseek := Start(hval, htsize), htsize, true;
    dlen, fpos := 0, fpos0;
    ghost var d: nat := 0;
    while true
      invariant d < htsize && httodo == htsize - d && hti == Around(Start(hval, htsize), d, htsize)
      invariant IsFile(mem, b) ==>
                Probing(mem, b, key, 0, d, htstart, htsize) && (!needseek ==> fpos == htstart + 8 * hti)
      decreases httodo
    {
      if needseek {
        fpos := SlotPosition(htstart, hti);
      }
      var look, seeked;
      look, seeked, dlen, fpos := SeekSlot(mem, fpos, hval, key, b, d, htstart, htsize);
      if !look.Next? {
        return match look case Free => 0 case Hit => 1 case _ => -1, dlen, fpos;
      }
      needseek := seeked;
      httodo := httodo - 1;
      if httodo == 0 {
        if IsFile(mem, b) {
          FreeMeans(mem, b, key, 0, htsize, htstart, htsize);
        }
        return 0, dlen, fpos;
      }
      hti := hti + 1;
      if hti == htsize {
        hti, needseek := 0, true;
      }
      d := d + 1;
    }
  }
}
