// The state of a database while it is written, and cdb_make_add (contrib/cdb/cdb_make.c).
module CdbMake {
  import opened Common
  import opened CdbFormat
  import opened CdbIndex
  import opened CdbWrite

  /** The place of the table of contents, until it is written. */
  ghost function Blank(): (r: seq<Byte>)
    ensures |r| == HEADER
  {
    seq(HEADER, _ => 0)
  }

  ghost function Image(es: seq<Entry>): seq<Byte> {
    Blank() + Data(es)
  }

  /** The records that count, in order. */
  ghost function LiveOf(es: seq<Entry>): (r: seq<Entry>)
    ensures |r| <= |es|
  {
    if es == [] then [] else OneLive(es[0]) + LiveOf(es[1..])
  }

  ghost function OneLive(e: Entry): seq<Entry> {
    if e.live then [e] else []
  }

  lemma {:induction false} LiveJoin(a: seq<Entry>, b: seq<Entry>)
    ensures LiveOf(a + b) == LiveOf(a) + LiveOf(b)
  {
    if a == [] {
      assert a + b == b;
    } else {
      LiveJoin(a[1..], b);
      assert (a + b)[0] == a[0] && (a + b)[1..] == a[1..] + b;
      Assoc(OneLive(a[0]), LiveOf(a[1..]), LiveOf(b));
    }
  }

  lemma LiveOne(e: Entry)
    ensures LiveOf([e]) == OneLive(e)
  {
    assert [e][1..] == [];
  }

  /** The lists hold exactly the live records, each at its position. */
  ghost predicate Indexed(rec: seq<seq<Block>>, es: seq<Entry>) {
    && |rec| == 256
    && forall t | 0 <= t < 256 :: BlocksFit(rec[t]) && Flat(rec[t]) == Infos(es, t, HEADER)
  }

  ghost predicate Valid(m: Maker, es: seq<Entry>)
    reads m
  {
    && m.Buffered() && AllSound(es) && m.Content() == Image(es) && m.dpos < TWO32 && |m.file| < TWO32
    && Indexed(m.rec, es) && m.rcnt == |LiveOf(es)|
  }

  /** Nothing pending and the file in order up to dpos; the file's position may be anywhere. */
  ghost predicate Settled(m: Maker, es: seq<Entry>)
    reads m
  {
    && m.pending == [] && AllSound(es) && m.dpos <= |m.file| && m.file[..m.dpos] == Image(es) && |m.file| < TWO32
    && Indexed(m.rec, es) && m.rcnt == |LiveOf(es)|
  }

  /** cdb_make_start leaves an empty database. */
  lemma StartValid(m: Maker)
    requires m.Buffered() && m.Content() == Blank() && m.rec == seq(256, _ => []) && m.rcnt == 0 && |m.file| < TWO32
    ensures Valid(m, [])
  {
    assert m.Content() == Image([]);
  }

  // ---- Adding ---------------------------------------------------------------------------------------

  /** The check of _cdb_make_add, in unsigned 32-bit arithmetic. */
  predicate AddRefused(dpos: nat, klen: nat, vlen: nat) {
    klen > TWO32 - 1 - (dpos + 8) % TWO32 || vlen > TWO32 - 1 - (dpos + klen + 8) % TWO32
  }

  /**
   * The check refuses exactly the records that would not end below 2^32, if and only if the eight
   * length bytes still fit; with less room than that it lets an empty record through.
   */
  lemma AddCheckExact(dpos: nat)
    requires dpos < TWO32
    ensures (forall klen: nat, vlen: nat | klen < TWO32 && vlen < TWO32 :: AddRefused(dpos, klen, vlen) <==>
            dpos + 8 + klen + vlen >= TWO32)
            <==> dpos + 8 < TWO32
  {
    if dpos + 8 >= TWO32 {
      assert !AddRefused(dpos, 0, 0);
    }
  }

  lemma IndexedOneMore(rec: seq<seq<Block>>, es: seq<Entry>, e: Entry, es': seq<Entry>, t: nat, bs: seq<Block>)
    requires Indexed(rec, es) && e.live && t == e.hval % 256 && es' == es + [e]
    requires BlocksFit(bs) && Flat(bs) == Flat(rec[t]) + [Rec(e.hval, HEADER + |Data(es)|)]
    ensures Indexed(rec[t := bs], es')
  {
    forall u | 0 <= u < 256 ensures Flat(rec[t := bs][u]) == Infos(es', u, HEADER) {
      InfosSnoc(es, e, es', u);
    }
  }

  lemma ImageOneMore(es: seq<Entry>, e: Entry)
    requires AllSound(es) && Sound(e)
    ensures AllSound(es + [e]) && Image(es + [e]) == Image(es) + e.bytes
  {
    DataJoin(es, [e]);
    DataOne(e);
    Assoc(Blank(), Data(es), e.bytes);
    forall i {:trigger Sound((es + [e])[i])} | 0 <= i < |es + [e]| ensures Sound((es + [e])[i]) {
      assert i < |es| ==> Sound(es[i]);
    }
  }

  /** _cdb_make_add: one more record at the end, or nothing when it does not fit. */
  method Add(m: Maker, hval: nat, key: seq<Byte>, val: seq<Byte>, ghost es: seq<Entry>) returns (r: int)
    requires Valid(m, es) && hval == Hash(key) && |key| < TWO32 && |val| < TWO32 && m.dpos + 8 < TWO32
    modifies m
    ensures r == (if old(m.dpos) + 8 + |key| + |val| < TWO32 then 0 else -1)
    ensures Valid(m, if r == 0 then es + [MakeEntry(key, val, true)] else es)
  {
    if AddRefused(m.dpos, |key|, |val|) {
      return -1;
    }
    ghost var e := MakeEntry(key, val, true);
    ImageOneMore(es, e);
    NoteRecord(m, hval, es, e);
    WriteRecord(m, key, val);
    r := 0;
  }

  /** The new record's place in its list. */
  method NoteRecord(m: Maker, hval: nat, ghost es: seq<Entry>, ghost e: Entry)
    requires Indexed(m.rec, es) && m.rcnt == |LiveOf(es)| && hval == e.hval && e.live && m.dpos == HEADER + |Data(es)|
    modifies m`rec, m`rcnt
    ensures Indexed(m.rec, es + [e]) && m.rcnt == |LiveOf(es + [e])|
  {
    var t := hval % 256;
    var bs := AddRec(m.rec[t], Rec(hval, m.dpos));
    IndexedOneMore(m.rec, es, e, es + [e], t, bs);
    m.rec := m.rec[t := bs];
    m.rcnt := m.rcnt + 1;
    LiveJoin(es, [e]);
    LiveOne(e);
  }

  method WriteRecord(m: Maker, key: seq<Byte>, val: seq<Byte>)
    requires m.Buffered() && |key| < TWO32 && |val| < TWO32
    modifies m`file, m`fpos, m`pending, m`dpos
    ensures m.Buffered() && m.Content() == old(m.Content()) + RecBytes(key, val)
    ensures |m.file| <= Max(old(|m.file|), |m.Content()|)
  {
    ghost var c := m.Content();
    m.Write(Pack(|key|) + Pack(|val|));
    m.Write(key);
    m.Write(val);
    Assoc(c, Pack(|key|) + Pack(|val|), key);
    Assoc(c, Pack(|key|) + Pack(|val|) + key, val);
  }
}
