// Blanking a record in a database that is being written (zerofill_record of contrib/cdb/cdb_make.c),
// and what a search for a key keeps while records are removed or blanked.
module CdbPut {
  import opened Common
  import opened CdbFormat
  import opened CdbIndex
  import opened CdbWrite
  import opened CdbMake
  import opened CdbRemove

  ghost predicate IsMatch(e: Entry, key: seq<Byte>) {
    e.live && e.key == key
  }

  ghost predicate HasKey(es: seq<Entry>, key: seq<Byte>) {
    exists n :: 0 <= n < |es| && IsMatch(es[n], key)
  }

  ghost function Kept(e: Entry, key: seq<Byte>): seq<Entry> {
    if IsMatch(e, key) then [] else [e]
  }

  /** The entries without the live ones that have this key. */
  ghost function RemoveKey(es: seq<Entry>, key: seq<Byte>): seq<Entry> {
    if es == [] then [] else Kept(es[0], key) + RemoveKey(es[1..], key)
  }

  lemma {:induction false} RemoveJoin(a: seq<Entry>, b: seq<Entry>, ab: seq<Entry>, key: seq<Byte>)
    requires ab == a + b
    ensures RemoveKey(ab, key) == RemoveKey(a, key) + RemoveKey(b, key)
  {
    if a == [] {
      assert ab == b;
    } else {
      var e, rest := a[0], a[1..];
      assert ab[0] == e && ab[1..] == rest + b;
      RemoveJoin(rest, b, ab[1..], key);
      Assoc(Kept(e, key), RemoveKey(rest, key), RemoveKey(b, key));
    }
  }

  lemma RemoveOne(e: Entry, key: seq<Byte>)
    ensures RemoveKey([e], key) == Kept(e, key)
  {
    assert [e][1..] == [];
  }

  lemma RemoveAround(a: seq<Entry>, e: Entry, b: seq<Entry>, es: seq<Entry>, key: seq<Byte>)
    requires es == a + [e] + b
    ensures RemoveKey(es, key) == RemoveKey(a, key) + Kept(e, key) + RemoveKey(b, key)
  {
    RemoveJoin(a + [e], b, es, key);
    RemoveJoin(a, [e], a + [e], key);
    RemoveOne(e, key);
  }

  lemma {:induction false} NothingToRemove(es: seq<Entry>, key: seq<Byte>)
    requires !HasKey(es, key)
    ensures RemoveKey(es, key) == es
  {
    if es != [] {
      assert forall n | 0 <= n < |es[1..]| :: es[1..][n] == es[n + 1];
      NothingToRemove(es[1..], key);
      assert es == [es[0]] + es[1..];
    }
  }

  /** After removal no live record has the key, and the live ones with other keys are all there, in order. */
  lemma {:induction false} RemovedAll(es: seq<Entry>, key: seq<Byte>)
    ensures !HasKey(RemoveKey(es, key), key)
    ensures forall e :: e in RemoveKey(es, key) <==> e in es && !IsMatch(e, key)
  {
    if es != [] {
      RemovedAll(es[1..], key);
      assert forall e :: e in es <==> e == es[0] || e in es[1..];
      var r := RemoveKey(es, key);
      forall n | 0 <= n < |r| ensures !IsMatch(r[n], key) {
        assert r[n] in r;
      }
    }
  }

  /** A record filled with zeros: no key, and as many value bytes as there were. */
  ghost function Blanked(e: Entry): (d: Entry)
    requires 8 <= |e.bytes| < TWO32
    ensures |d.bytes| == |e.bytes|
  {
    MakeEntry([], seq(|e.bytes| - 8, _ => 0), false)
  }

  // ---- Filling a record with zeros --------------------------------------------------------------------

  /** What zerofill_record writes over a record. */
  function BlankBytes(rlen: nat): (r: seq<Byte>)
    requires 8 <= rlen < TWO32
    ensures |r| == rlen
  {
    Pack(0) + Pack(rlen - 8) + seq(rlen - 8, _ => 0)
  }

  /** It reads as a record without a key, and everything behind the lengths is zero. */
  lemma BlankReads(rlen: nat, file: seq<Byte>, pos: nat)
    requires 8 <= rlen < TWO32 && pos + rlen <= |file| && file[pos..pos + rlen] == BlankBytes(rlen)
    ensures NumAt(file, pos) == 0 && NumAt(file, pos + 4) == rlen - 8
    ensures forall i | pos + 8 <= i < pos + rlen :: file[i] == 0
  {
    var r := BlankBytes(rlen);
    var it := file[pos..pos + rlen];
    assert r[..4] == Pack(0) && r[4..8] == Pack(rlen - 8);
    assert forall k | 0 <= k < rlen :: it[k] == file[pos + k];
    assert file[pos..pos + 4] == it[..4];
    assert file[pos + 4..pos + 8] == it[4..8];
    UnpackPack(0);
    UnpackPack(rlen - 8);
    forall i | pos + 8 <= i < pos + rlen ensures file[i] == 0 {
      assert file[i] == r[i - pos];
    }
  }

  lemma BlankedBytes(e: Entry)
    requires 8 <= |e.bytes| < TWO32
    ensures Blanked(e).bytes == BlankBytes(|e.bytes|)
  {
    assert Pack(0) + Pack(|e.bytes| - 8) + [] == Pack(0) + Pack(|e.bytes| - 8);
  }

  /** The first bytes of the buffer: on the first round the length is in it, afterwards only zeros. */
  function BlankBuffer(rlen: nat, first: bool, len: nat): (r: seq<Byte>)
    requires 8 <= rlen < TWO32 && (first ==> len >= 8)
    ensures |r| == len
  {
    if first then Pack(0) + Pack(rlen - 8) + seq(len - 8, _ => 0) else seq(len, _ => 0)
  }

  lemma BlankChunk(rlen: nat, done: nat, len: nat)
    requires 8 <= rlen < TWO32 && done + len <= rlen && (done == 0 ==> len >= 8) && (done > 0 ==> done >= 8)
    ensures BlankBuffer(rlen, done == 0, len) == BlankBytes(rlen)[done..done + len]
  {
  }

  /** The writing loop of zerofill_record. */
  method WriteBlank(m: Maker, rpos: nat, rlen: nat)
    requires 8 <= rlen < TWO32 && rpos + rlen <= |m.file|
    modifies m`file, m`fpos
    ensures m.file == Overwrite(old(m.file), rpos, BlankBytes(rlen))
  {
    ghost var was := m.file;
    m.fpos := rpos;
    var rest: nat := rlen;
    OverwriteNothing(was, rpos, BlankBytes(rlen));
    while rest > 0
      invariant rest <= rlen && (rest == rlen || rlen - rest >= 8) && m.fpos == rpos + rlen - rest
      invariant m.file == Overwrite(was, rpos, BlankBytes(rlen)[..rlen - rest])
    {
      var len: nat := if rest > BUFSIZE then BUFSIZE else rest;
      WriteChunk(m, rpos, rlen, rlen - rest, len, was);
      rest := rest - len;
    }
    assert BlankBytes(rlen)[..rlen] == BlankBytes(rlen);
  }

  method WriteChunk(m: Maker, rpos: nat, rlen: nat, done: nat, len: nat, ghost was: seq<Byte>)
    requires 8 <= rlen < TWO32 && rpos + rlen <= |was| && done + len <= rlen && (done == 0 ==> len >= 8)
             && (done > 0 ==> done >= 8)
    requires m.fpos == rpos + done && m.file == Overwrite(was, rpos, BlankBytes(rlen)[..done])
    modifies m`file, m`fpos
    ensures m.fpos == rpos + done + len && m.file == Overwrite(was, rpos, BlankBytes(rlen)[..done + len])
  {
    BlankChunk(rlen, done, len);
    OverwriteMore(was, rpos, BlankBytes(rlen), done, len);
    m.FullWrite(BlankBuffer(rlen, done == 0, len));
  }

  lemma OverwriteNothing(was: seq<Byte>, p: nat, all: seq<Byte>)
    requires p <= |was|
    ensures Overwrite(was, p, all[..0]) == was
  {
  }

  lemma OverwriteMore(was: seq<Byte>, p: nat, all: seq<Byte>, done: nat, len: nat)
    requires p + |all| <= |was| && done + len <= |all|
    ensures Overwrite(Overwrite(was, p, all[..done]), p + done, all[done..done + len])
            == Overwrite(was, p, all[..done + len])
  {
    assert all[..done + len] == all[..done] + all[done..done + len];
  }

  /** An entry replaced by one of the same size, in the image. */
  lemma ImageReplaced(es: seq<Entry>, n: nat, d: Entry)
    requires n < |es| && |d.bytes| == |es[n].bytes|
    ensures Offset(es, n) + |d.bytes| <= |Image(es)|
            && Image(es[n := d]) == Overwrite(Image(es), Offset(es, n), d.bytes)
  {
    var a, e, b := es[..n], es[n], es[n + 1..];
    assert es == a + ([e] + b);
    assert es[n := d] == a + ([d] + b);
    DataAround(a, e, b);
    DataAround(a, d, b);
    SwapMiddle(Blank(), Data(a), e.bytes, d.bytes, Data(b));
  }

  lemma SwapMiddle(z: seq<Byte>, a: seq<Byte>, r: seq<Byte>, r': seq<Byte>, b: seq<Byte>)
    requires |r| == |r'|
    ensures z + (a + (r' + b)) == Overwrite(z + (a + (r + b)), |z| + |a|, r')
  {
  }

  lemma OverwritePrefix(file: seq<Byte>, dpos: nat, p: nat, data: seq<Byte>)
    requires p + |data| <= dpos <= |file|
    ensures |Overwrite(file, p, data)| == |file| && Overwrite(file, p, data)[..dpos] == Overwrite(file[..dpos], p, data)
  {
    var a, b := Overwrite(file, p, data)[..dpos], Overwrite(file[..dpos], p, data);
    assert |a| == |b| == dpos;
    forall i | 0 <= i < dpos ensures a[i] == b[i] {
    }
  }

  /** What zerofill_record leaves: the last record is just dropped, any other one is blanked. */
  ghost function AfterFill(es: seq<Entry>, n: nat): seq<Entry>
    requires n < |es| && 8 <= |es[n].bytes| < TWO32
  {
    if n + 1 == |es| then es[..n] else es[n := Blanked(es[n])]
  }

  /** zerofill_record. */
  method ZerofillRecord(m: Maker, rpos: nat, rlen: nat, ghost es: seq<Entry>, ghost n: nat)
    requires Stored(m.file, m.dpos, es) && NonEmpty(es) && m.dpos < TWO32
    requires n < |es| && rpos == Offset(es, n) && rlen == |es[n].bytes| >= 8
    modifies m`file, m`fpos, m`dpos
    ensures |es[n].bytes| < TWO32 && Stored(m.file, m.dpos, AfterFill(es, n)) && m.dpos <= old(m.dpos)
            && |m.file| == old(|m.file|)
  {
    EntryInFile(m.file, m.dpos, es, n);
    LastIffEnd(m.file, m.dpos, es, n);
    if rpos + rlen == m.dpos {
      DropLast(m.file, m.dpos, es);
      m.dpos := rpos;
    } else {
      BlankedBytes(es[n]);
      ImageReplaced(es, n, Blanked(es[n]));
      OverwritePrefix(m.file, m.dpos, rpos, BlankBytes(rlen));
      WriteBlank(m, rpos, rlen);
    }
  }

  lemma DropLast(file: seq<Byte>, dpos: nat, es: seq<Entry>)
    requires Stored(file, dpos, es) && es != []
    ensures var n := |es| - 1; Offset(es, n) <= dpos && Stored(file, Offset(es, n), es[..n])
  {
    var n := |es| - 1;
    assert es == es[..n] + [es[n]];
    DataJoin(es[..n], [es[n]]);
    assert file[..Offset(es, n)] == file[..dpos][..Offset(es, n)];
  }

  // ---- Where the search stands ------------------------------------------------------------------------

  /** How many elements of list t come before entry n's. */
  ghost function Place(es: seq<Entry>, t: nat, n: nat): nat
    requires n <= |es|
  {
    |Infos(es[..n], t, HEADER)|
  }

  lemma PlaceRises(es: seq<Entry>, t: nat, n: nat, m: nat)
    requires n < m <= |es| && InList(es[n], t)
    ensures Place(es, t, n) < Place(es, t, m)
  {
    var a, b := es[..n], es[n..m];
    assert es[..m] == a + b;
    InfosJoin(a, b, es[..m], t, HEADER);
    assert b[0] == es[n];
  }

  /** The entry behind an element of a list. */
  lemma EntryOfRec(es: seq<Entry>, bs: seq<Block>, t: nat, k: nat, i: nat) returns (n: nat)
    requires Flat(bs) == Infos(es, t, HEADER) && k < |bs| && i < |bs[k]|
    ensures n < |es| && InList(es[n], t) && bs[k][i] == Rec(es[n].hval, Offset(es, n))
    ensures Place(es, t, n) == |Flat(bs[k + 1..])| + i
  {
    FlatDrop(bs, k, i);
    n := InfoIsEntry(es, t, HEADER, |Flat(bs[k + 1..])| + i);
  }

  /** All live records with the key are among the first c elements of list t. */
  ghost predicate NoneBehind(es: seq<Entry>, key: seq<Byte>, t: nat, c: nat) {
    forall n {:trigger IsMatch(es[n], key)} | 0 <= n < |es| && IsMatch(es[n], key) :: Place(es, t, n) < c
  }

  /** The list that a key belongs to. */
  ghost predicate OwnList(es: seq<Entry>, key: seq<Byte>, t: nat) {
    forall n {:trigger IsMatch(es[n], key)} | 0 <= n < |es| && IsMatch(es[n], key) :: InList(es[n], t)
  }

  lemma SoundOwnList(es: seq<Entry>, key: seq<Byte>)
    requires AllSound(es)
    ensures OwnList(es, key, Hash(key) % 256)
  {
    forall n {:trigger IsMatch(es[n], key)} | 0 <= n < |es| && IsMatch(es[n], key)
      ensures InList(es[n], Hash(key) % 256)
    {
      assert Sound(es[n]);
    }
  }

  lemma SearchStarts(es: seq<Entry>, key: seq<Byte>, t: nat)
    requires OwnList(es, key, t)
    ensures NoneBehind(es, key, t, |Infos(es, t, HEADER)|)
  {
    forall n {:trigger IsMatch(es[n], key)} | 0 <= n < |es| && IsMatch(es[n], key)
      ensures Place(es, t, n) < |Infos(es, t, HEADER)|
    {
      PlaceRises(es, t, n, |es|);
      assert es[..|es|] == es;
    }
  }

  lemma SearchEnds(es: seq<Entry>, key: seq<Byte>, t: nat)
    requires NoneBehind(es, key, t, 0)
    ensures !HasKey(es, key)
  {
  }

  /** A record that does not match is passed over. */
  lemma PassedOver(es: seq<Entry>, key: seq<Byte>, t: nat, n: nat)
    requires n < |es| && InList(es[n], t) && !IsMatch(es[n], key) && OwnList(es, key, t)
             && NoneBehind(es, key, t, Place(es, t, n) + 1)
    ensures NoneBehind(es, key, t, Place(es, t, n))
  {
    forall m {:trigger IsMatch(es[m], key)} | 0 <= m < |es| && IsMatch(es[m], key)
      ensures Place(es, t, m) < Place(es, t, n)
    {
      if m < n {
        PlaceRises(es, t, m, n);
      } else {
        PlaceRises(es, t, n, m);
      }
    }
  }

  /** Nothing behind the match just found matches as well. */
  lemma OnlyBefore(es: seq<Entry>, key: seq<Byte>, t: nat, n: nat, m: nat)
    requires n < |es| && m < |es| && n != m && IsMatch(es[n], key) && IsMatch(es[m], key)
    requires OwnList(es, key, t) && NoneBehind(es, key, t, Place(es, t, n) + 1)
    ensures m < n && Place(es, t, m) < Place(es, t, n)
  {
    if m < n {
      PlaceRises(es, t, m, n);
    } else {
      PlaceRises(es, t, n, m);
    }
  }

  lemma SearchRemoved(es: seq<Entry>, key: seq<Byte>, t: nat, n: nat)
    requires n < |es| && IsMatch(es[n], key) && OwnList(es, key, t) && NoneBehind(es, key, t, Place(es, t, n) + 1)
    ensures NoneBehind(Without(es, n), key, t, Place(es, t, n)) && OwnList(Without(es, n), key, t)
  {
    var rest := Without(es, n);
    forall m {:trigger IsMatch(rest[m], key)} | 0 <= m < |rest| && IsMatch(rest[m], key)
      ensures Place(rest, t, m) < Place(es, t, n) && InList(rest[m], t)
    {
      var old_ := if m < n then m else m + 1;
      assert rest[m] == es[old_];
      OnlyBefore(es, key, t, n, old_);
      assert rest[..m] == es[..m];
    }
  }

  lemma SearchFilled(es: seq<Entry>, key: seq<Byte>, t: nat, n: nat)
    requires n < |es| && 8 <= |es[n].bytes| < TWO32 && IsMatch(es[n], key) && OwnList(es, key, t)
             && NoneBehind(es, key, t, Place(es, t, n) + 1)
    ensures NoneBehind(AfterFill(es, n), key, t, Place(es, t, n)) && OwnList(AfterFill(es, n), key, t)
  {
    var rest := AfterFill(es, n);
    forall m {:trigger IsMatch(rest[m], key)} | 0 <= m < |rest| && IsMatch(rest[m], key)
      ensures Place(rest, t, m) < Place(es, t, n) && InList(rest[m], t)
    {
      assert m != n;
      assert rest[m] == es[m];
      OnlyBefore(es, key, t, n, m);
      assert rest[..m] == es[..m];
    }
  }

  // ---- The index without a record -------------------------------------------------------------------------

  /** A list without element i of block k. */
  function Dropped(bs: seq<Block>, k: nat, i: nat): seq<Block>
    requires k < |bs| && i < |bs[k]|
  {
    bs[k := bs[k][..i] + bs[k][i + 1..]]
  }

  lemma IndexedRemoved(rec: seq<seq<Block>>, es: seq<Entry>, n: nat, t: nat, k: nat, i: nat, rec': seq<seq<Block>>)
    requires Indexed(rec, es) && NonEmpty(es) && n < |es| && t < 256 && InList(es[n], t)
    requires k < |rec[t]| && i < |rec[t][k]| && Place(es, t, n) == |Flat(rec[t][k + 1..])| + i
    requires |rec'| == 256 && forall u | 0 <= u < 256 :: rec'[u] == MovedBlocks(rec[u], Offset(es, n), |es[n].bytes|)
    ensures k < |rec'[t]| && i < |rec'[t][k]| && Indexed(rec'[t := Dropped(rec'[t], k, i)], Without(es, n))
  {
    var rpos, rlen := Offset(es, n), |es[n].bytes|;
    assert rec'[t] == MovedBlocks(rec[t], rpos, rlen);
    forall u | 0 <= u < 256
      ensures var bs := rec'[t := Dropped(rec'[t], k, i)][u];
              BlocksFit(bs) && Flat(bs) == Infos(Without(es, n), u, HEADER)
    {
      FlatMoved(rec[u], rpos, rlen);
      if u == t {
        DroppedList(rec[t], es, n, t, k, i, rec'[t]);
      } else {
        OtherListWithout(es, n, u);
      }
    }
  }

  lemma DroppedList(bs: seq<Block>, es: seq<Entry>, n: nat, t: nat, k: nat, i: nat, bs': seq<Block>)
    requires BlocksFit(bs) && Flat(bs) == Infos(es, t, HEADER) && NonEmpty(es) && n < |es| && InList(es[n], t)
    requires k < |bs| && i < |bs[k]| && Place(es, t, n) == |Flat(bs[k + 1..])| + i
    requires bs' == MovedBlocks(bs, Offset(es, n), |es[n].bytes|)
    ensures BlocksFit(Dropped(bs', k, i)) && Flat(Dropped(bs', k, i)) == Infos(Without(es, n), t, HEADER)
  {
    var rpos, rlen := Offset(es, n), |es[n].bytes|;
    MovedShape(bs, k, rpos, rlen);
    ListWithout(es, n, t, Flat(bs'), Place(es, t, n));
    DroppedIs(bs', k, i, Infos(Without(es, n), t, HEADER));
  }

  lemma MovedShape(bs: seq<Block>, k: nat, rpos: nat, rlen: nat)
    requires k < |bs| && BlocksFit(bs)
    ensures var bs' := MovedBlocks(bs, rpos, rlen);
            && BlocksFit(bs') && Flat(bs') == MovedAll(Flat(bs), rpos, rlen)
            && |bs'[k]| == |bs[k]| && |Flat(bs'[k + 1..])| == |Flat(bs[k + 1..])|
  {
    var bs' := MovedBlocks(bs, rpos, rlen);
    FlatMoved(bs, rpos, rlen);
    FlatMoved(bs[k + 1..], rpos, rlen);
    assert bs'[k + 1..] == MovedBlocks(bs[k + 1..], rpos, rlen);
  }

  /** Dropping an element of a block leaves the list without that element. */
  lemma DroppedIs(bs: seq<Block>, k: nat, i: nat, xs: seq<Rec>)
    requires BlocksFit(bs) && k < |bs| && i < |bs[k]|
    requires var c := |Flat(bs[k + 1..])| + i; c < |Flat(bs)| ==> Flat(bs)[..c] + Flat(bs)[c + 1..] == xs
    ensures BlocksFit(Dropped(bs, k, i)) && Flat(Dropped(bs, k, i)) == xs
  {
    FlatDrop(bs, k, i);
  }

  /** The list after a record was blanked or dropped: without its element, the others where they were. */
  lemma FilledInfos(es: seq<Entry>, n: nat, t: nat)
    requires n < |es| && 8 <= |es[n].bytes| < TWO32
    ensures Infos(AfterFill(es, n), t, HEADER)
            == Infos(es[..n], t, HEADER) + Infos(es[n + 1..], t, Offset(es, n) + |es[n].bytes|)
  {
    var a, e, b, rest := es[..n], es[n], es[n + 1..], AfterFill(es, n);
    if b == [] {
      assert rest == a;
    } else {
      assert rest == a + [Blanked(e)] + b;
      InfosAround(a, Blanked(e), b, rest, t);
    }
  }

  lemma ListFilled(es: seq<Entry>, n: nat, t: nat)
    requires n < |es| && 8 <= |es[n].bytes| < TWO32 && InList(es[n], t)
    ensures var xs, c := Infos(es, t, HEADER), Place(es, t, n);
            c < |xs| && xs[..c] + xs[c + 1..] == Infos(AfterFill(es, n), t, HEADER)
  {
    var a, e, b := es[..n], es[n], es[n + 1..];
    var rpos := HEADER + |Data(a)|;
    assert es == a + [e] + b;
    InfosAround(a, e, b, es, t);
    FilledInfos(es, n, t);
    CutMiddle(Infos(a, t, HEADER), Rec(e.hval, rpos), Infos(b, t, rpos + |e.bytes|), Infos(es, t, HEADER));
  }

  lemma OtherListFilled(es: seq<Entry>, n: nat, t: nat)
    requires n < |es| && 8 <= |es[n].bytes| < TWO32 && !InList(es[n], t)
    ensures Infos(AfterFill(es, n), t, HEADER) == Infos(es, t, HEADER)
  {
    var a, e, b := es[..n], es[n], es[n + 1..];
    assert es == a + [e] + b;
    InfosAround(a, e, b, es, t);
    FilledInfos(es, n, t);
  }

  lemma IndexedFilled(rec: seq<seq<Block>>, es: seq<Entry>, n: nat, t: nat, k: nat, i: nat)
    requires Indexed(rec, es) && n < |es| && t < 256 && InList(es[n], t) && 8 <= |es[n].bytes| < TWO32
    requires k < |rec[t]| && i < |rec[t][k]| && Place(es, t, n) == |Flat(rec[t][k + 1..])| + i
    ensures Indexed(rec[t := Dropped(rec[t], k, i)], AfterFill(es, n))
  {
    forall u | 0 <= u < 256
      ensures var bs := rec[t := Dropped(rec[t], k, i)][u];
              BlocksFit(bs) && Flat(bs) == Infos(AfterFill(es, n), u, HEADER)
    {
      if u == t {
        ListFilled(es, n, t);
        DroppedIs(rec[t], k, i, Infos(AfterFill(es, n), t, HEADER));
      } else {
        OtherListFilled(es, n, u);
      }
    }
  }
}
