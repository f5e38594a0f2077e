// Comparing a record with a key (match) and taking it out of a database that is being written
// (remove_record and fixup_rpos), of contrib/cdb/cdb_make.c.
module CdbRemove {
  import opened Common
  import opened CdbFormat
  import opened CdbIndex
  import opened CdbWrite
  import opened CdbMake

  // ---- Comparing a record ---------------------------------------------------------------------

  /** The key bytes at pos, compared a bufferful at a time. */
  method SameBytes(file: seq<Byte>, pos: nat, key: seq<Byte>) returns (same: bool)
    requires pos + |key| <= |file|
    ensures same <==> file[pos..pos + |key|] == key
  {
    var done := 0;
    while done < |key|
      invariant done <= |key| && file[pos..pos + done] == key[..done]
    {
      var len := if |key| - done > BUFSIZE then BUFSIZE else |key| - done;
      ChunkDiffers(file, pos, key, done, len);
      if file[pos + done..pos + done + len] != key[done..done + len] {
        return false;
      }
      assert file[pos..pos + done + len] == file[pos..pos + done] + file[pos + done..pos + done + len];
      assert key[..done + len] == key[..done] + key[done..done + len];
      done := done + len;
    }
    assert key[..|key|] == key;
    same := true;
  }

  lemma ChunkDiffers(file: seq<Byte>, pos: nat, key: seq<Byte>, done: nat, len: nat)
    requires pos + |key| <= |file| && done + len <= |key|
    ensures file[pos..pos + |key|] == key ==> file[pos + done..pos + done + len] == key[done..done + len]
  {
    SubSlice(file, pos, pos + |key|, done, done + len);
  }

  /** match: 0 for another key, 1 when the record cannot be one of ours, or the record's length. */
  method Match(file: seq<Byte>, dpos: nat, pos: nat, key: seq<Byte>) returns (r: nat)
    requires pos + 8 <= dpos <= |file| && (NumAt(file, pos) == |key| ==> pos + 8 + |key| <= dpos)
    ensures NumAt(file, pos) != |key| ==> r == 0
    ensures NumAt(file, pos) == |key| && NumAt(file, pos + 4) > dpos - pos - |key| - 8 ==> r == 1
    ensures NumAt(file, pos) == |key| && NumAt(file, pos + 4) <= dpos - pos - |key| - 8 ==>
              r == if file[pos + 8..pos + 8 + |key|] == key then 8 + |key| + NumAt(file, pos + 4) else 0
  {
    if NumAt(file, pos) != |key| {
      return 0;
    }
    var vlen := NumAt(file, pos + 4);
    if vlen > dpos - pos - |key| - 8 {
      return 1;
    }
    var same := SameBytes(file, pos + 8, key);
    r := if same then 8 + |key| + vlen else 0;
  }

  /** Where entry i is in the file. */
  lemma EntryInFile(file: seq<Byte>, dpos: nat, es: seq<Entry>, i: nat)
    requires dpos <= |file| && file[..dpos] == Image(es) && i < |es|
    ensures Offset(es, i) + |es[i].bytes| <= dpos && Holds(file, Offset(es, i), es[i].bytes)
  {
    RecordAt(es, i);
    PlacedInFile(file, dpos, Blank(), Data(es), |Data(es[..i])|, es[i].bytes);
  }

  lemma PlacedInFile(file: seq<Byte>, dpos: nat, header: seq<Byte>, data: seq<Byte>, p: nat, bytes: seq<Byte>)
    requires dpos <= |file| && file[..dpos] == header + data && Holds(data, p, bytes)
    ensures dpos == |header| + |data| && |header| + p + |bytes| <= dpos && Holds(file, |header| + p, bytes)
  {
    var n := |bytes|;
    SliceBehind(header, data, p, p + n);
    SliceOfPrefix(file, dpos, |header| + p, |header| + p + n);
  }

  lemma SliceBehind<T>(a: seq<T>, b: seq<T>, i: nat, j: nat)
    requires i <= j <= |b|
    ensures (a + b)[|a| + i..|a| + j] == b[i..j]
  {
  }

  lemma SliceOfPrefix<T>(s: seq<T>, n: nat, i: nat, j: nat)
    requires i <= j <= n <= |s|
    ensures s[..n][i..j] == s[i..j]
  {
  }

  /** On a record of ours match tells whether the key is the one asked for. */
  method MatchEntry(file: seq<Byte>, dpos: nat, pos: nat, key: seq<Byte>, ghost es: seq<Entry>, ghost i: nat)
    returns (r: nat)
    requires AllSound(es) && dpos <= |file| && file[..dpos] == Image(es) && i < |es| && pos == Offset(es, i)
    ensures r == if es[i].key == key then |es[i].bytes| else 0
  {
    assert Sound(es[i]);
    EntryInFile(file, dpos, es, i);
    RecordFields(file, pos, es[i].key, es[i].val);
    r := Match(file, dpos, pos, key);
  }

  // ---- Sliding the rest down -------------------------------------------------------------------

  /** The copying loop of remove_record: what is behind the record moves down over it. */
  method SlideDown(m: Maker, rpos: nat, rlen: nat, len0: nat)
    requires rpos + rlen + len0 <= |m.file| && rlen > 0
    modifies m`file, m`fpos
    ensures |m.file| == old(|m.file|)
    ensures m.file[..rpos + len0] == old(m.file)[..rpos] + old(m.file)[rpos + rlen..rpos + rlen + len0]
  {
    ghost var was := m.file;
    var pos: nat, len: nat := rpos, len0;
    while len > 0
      invariant pos + len == rpos + len0 && rpos <= pos && |m.file| == |was|
      invariant m.file[..pos] == was[..rpos] + was[rpos + rlen..pos + rlen]
      invariant m.file[pos..] == was[pos..]
    {
      var r := if len > BUFSIZE then BUFSIZE else len;
      var chunk := m.file[pos + rlen..pos + rlen + r];
      SlideStep(was, m.file, rpos, rlen, pos, r);
      m.fpos := pos;
      m.FullWrite(chunk);
      pos, len := pos + r, len - r;
    }
  }

  lemma SlideStep(was: seq<Byte>, now: seq<Byte>, rpos: nat, rlen: nat, pos: nat, r: nat)
    requires rpos <= pos && pos + rlen + r <= |was| == |now| && rlen > 0 && r > 0
    requires now[..pos] == was[..rpos] + was[rpos + rlen..pos + rlen] && now[pos..] == was[pos..]
    ensures var next := Overwrite(now, pos, now[pos + rlen..pos + rlen + r]);
            && |next| == |was|
            && next[..pos + r] == was[..rpos] + was[rpos + rlen..pos + r + rlen]
            && next[pos + r..] == was[pos + r..]
  {
    var chunk := now[pos + rlen..pos + rlen + r];
    SubSlice(now, pos, |now|, rlen, rlen + r);
    SubSlice(was, pos, |was|, rlen, rlen + r);
    assert chunk == was[pos + rlen..pos + rlen + r];
    var next := Overwrite(now, pos, chunk);
    assert next[..pos + r] == now[..pos] + chunk;
    assert was[rpos + rlen..pos + r + rlen] == was[rpos + rlen..pos + rlen] + chunk;
    assert next[pos + r..] == now[pos + r..];
    SubSlice(now, pos, |now|, r, |now| - pos);
    SubSlice(was, pos, |was|, r, |was| - pos);
  }

  /** The image without a record is the image of the other entries. */
  lemma ImageWithout(a: seq<Entry>, e: Entry, b: seq<Entry>, es: seq<Entry>, rest: seq<Entry>)
    requires es == a + ([e] + b) && rest == a + b
    ensures var img, p, n := Image(es), HEADER + |Data(a)|, |e.bytes|;
            p + n <= |img| && Image(rest) == img[..p] + img[p + n..]
  {
    DataAround(a, e, b);
    DataJoin(a, b);
    CutOut(Blank(), Data(a), e.bytes, Data(b));
  }

  lemma CutOut(z: seq<Byte>, a: seq<Byte>, r: seq<Byte>, b: seq<Byte>)
    ensures var s, p := z + (a + (r + b)), |z| + |a|;
            s[..p] + s[p + |r|..] == z + (a + b)
  {
  }

  ghost function Without(es: seq<Entry>, n: nat): seq<Entry>
    requires n < |es|
  {
    es[..n] + es[n + 1..]
  }

  /** The file holds the entries and nothing waits to be written. */
  ghost predicate Stored(file: seq<Byte>, dpos: nat, es: seq<Entry>) {
    dpos <= |file| && file[..dpos] == Image(es)
  }

  /** remove_record's effect on the file. */
  method CutRecord(m: Maker, rpos: nat, rlen: nat, ghost es: seq<Entry>, ghost n: nat) returns (moved: bool)
    requires Stored(m.file, m.dpos, es) && n < |es| && rpos == Offset(es, n) && rlen == |es[n].bytes| > 0
    modifies m`file, m`fpos, m`dpos
    ensures Stored(m.file, m.dpos, Without(es, n)) && m.dpos == old(m.dpos) - rlen && |m.file| == old(|m.file|)
    ensures !moved ==> m.dpos == rpos
  {
    EntryInFile(m.file, m.dpos, es, n);
    CutImage(m.file, m.dpos, es, n);
    var len := m.dpos - rpos - rlen;
    m.dpos := m.dpos - rlen;
    moved := len > 0;
    if moved {
      SlideDown(m, rpos, rlen, len);
    }
  }

  lemma CutImage(file: seq<Byte>, dpos: nat, es: seq<Entry>, n: nat)
    requires Stored(file, dpos, es) && n < |es|
    ensures Offset(es, n) + |es[n].bytes| <= dpos
    ensures Image(Without(es, n)) == file[..Offset(es, n)] + file[Offset(es, n) + |es[n].bytes|..dpos]
  {
    var a, e, b := es[..n], es[n], es[n + 1..];
    assert es == a + ([e] + b);
    ImageWithout(a, e, b, es, a + b);
    var p, q := Offset(es, n), Offset(es, n) + |e.bytes|;
    SliceOfPrefix(file, dpos, 0, p);
    SliceOfPrefix(file, dpos, q, dpos);
  }

  // ---- The index ---------------------------------------------------------------------------------

  ghost predicate ListsRise(rec: seq<seq<Block>>, rpos: nat, rlen: nat) {
    && |rec| == 256
    && forall t | 0 <= t < 256 :: Rising(Flat(rec[t])) && CanMove(Flat(rec[t]), rpos, rlen)
  }

  /** fixup_rpos. */
  method FixupRpos(m: Maker, rpos: nat, rlen: nat)
    requires ListsRise(m.rec, rpos, rlen)
    modifies m`rec
    ensures |m.rec| == 256 && forall t | 0 <= t < 256 :: m.rec[t] == MovedBlocks(old(m.rec)[t], rpos, rlen)
  {
    ghost var was := m.rec;
    for i := 0 to 256
      invariant |m.rec| == 256
      invariant forall t | 0 <= t < i :: m.rec[t] == MovedBlocks(was[t], rpos, rlen)
      invariant forall t | i <= t < 256 :: m.rec[t] == was[t]
    {
      var bs := FixupList(m.rec[i], rpos, rlen);
      m.rec := m.rec[i := bs];
    }
  }

  /** Lists that hold infos rise, and nothing behind a record is nearer than its length. */
  lemma IndexedRises(rec: seq<seq<Block>>, es: seq<Entry>, n: nat)
    requires Indexed(rec, es) && NonEmpty(es) && n < |es|
    ensures ListsRise(rec, Offset(es, n), |es[n].bytes|)
  {
    var a, e, b := es[..n], es[n], es[n + 1..];
    assert es == a + [e] + b;
    forall t | 0 <= t < 256 ensures Rising(Flat(rec[t])) && CanMove(Flat(rec[t]), Offset(es, n), |e.bytes|) {
      InfosRange(es, t, HEADER);
      FarEnough(a, e, b, es, t);
    }
  }

  lemma FarEnough(a: seq<Entry>, e: Entry, b: seq<Entry>, es: seq<Entry>, t: nat)
    requires es == a + [e] + b && NonEmpty(a) && NonEmpty(b)
    ensures CanMove(Infos(es, t, HEADER), HEADER + |Data(a)|, |e.bytes|)
  {
    InfosAround(a, e, b, es, t);
    InfosRange(a, t, HEADER);
    InfosRange(b, t, HEADER + |Data(a)| + |e.bytes|);
  }

  /** A record that is the last one has nothing behind it. */
  lemma LastMovesNothing(rec: seq<seq<Block>>, es: seq<Entry>, n: nat, t: nat)
    requires Indexed(rec, es) && NonEmpty(es) && n + 1 == |es| && t < 256
    ensures MovedBlocks(rec[t], Offset(es, n), |es[n].bytes|) == rec[t]
  {
    var a, e := es[..n], es[n];
    assert es == a + [e];
    InfosSnoc(a, e, es, t);
    InfosRange(a, t, HEADER);
    OldBlocksStay(rec[t], Offset(es, n), |e.bytes|);
  }

  /** remove_record: the record's bytes are gone and every other record is pointed to where it is now. */
  method RemoveRecord(m: Maker, rpos: nat, rlen: nat, ghost es: seq<Entry>, ghost n: nat)
    requires Stored(m.file, m.dpos, es) && Indexed(m.rec, es) && AllSound(es)
    requires n < |es| && rpos == Offset(es, n) && rlen == |es[n].bytes|
    modifies m`file, m`fpos, m`dpos, m`rec
    ensures Stored(m.file, m.dpos, Without(es, n)) && m.dpos == old(m.dpos) - rlen && |m.file| == old(|m.file|)
    ensures |m.rec| == 256 && forall t | 0 <= t < 256 :: m.rec[t] == MovedBlocks(old(m.rec)[t], rpos, rlen)
  {
    SoundNonEmpty(es);
    LastIffEnd(m.file, m.dpos, es, n);
    var moved := CutRecord(m, rpos, rlen, es, n);
    if moved {
      IndexedRises(m.rec, es, n);
      FixupRpos(m, rpos, rlen);
    } else {
      forall t | 0 <= t < 256 ensures m.rec[t] == MovedBlocks(m.rec[t], rpos, rlen) {
        LastMovesNothing(m.rec, es, n, t);
      }
    }
  }

  lemma LastIffEnd(file: seq<Byte>, dpos: nat, es: seq<Entry>, n: nat)
    requires Stored(file, dpos, es) && n < |es| && NonEmpty(es)
    ensures Offset(es, n) + |es[n].bytes| == dpos <==> n + 1 == |es|
  {
    OffsetNext(es, n);
    var a, b := es[..n + 1], es[n + 1..];
    assert es == a + b;
    DataJoin(a, b);
    assert b != [] ==> |Data(b)| >= |b[0].bytes|;
  }

  /** The element of the removed entry, and what is left of its list without it. */
  lemma ListWithout(es: seq<Entry>, n: nat, t: nat, xs: seq<Rec>, c: nat)
    requires n < |es| && InList(es[n], t) && NonEmpty(es) && c == |Infos(es[..n], t, HEADER)|
    requires xs == MovedAll(Infos(es, t, HEADER), Offset(es, n), |es[n].bytes|)
    ensures c < |xs| && xs[..c] + xs[c + 1..] == Infos(Without(es, n), t, HEADER)
  {
    var a, e, b := es[..n], es[n], es[n + 1..];
    var rpos := HEADER + |Data(a)|;
    assert es == a + [e] + b;
    MovedIsRemoved(a, e, b, es, t);
    InfosJoin(a, b, a + b, t, HEADER);
    CutMiddle(Infos(a, t, HEADER), Rec(e.hval, rpos), Infos(b, t, rpos), xs);
  }

  lemma CutMiddle<T>(a: seq<T>, x: T, b: seq<T>, xs: seq<T>)
    requires xs == a + [x] + b
    ensures xs[..|a|] + xs[|a| + 1..] == a + b
  {
  }

  lemma OtherListWithout(es: seq<Entry>, n: nat, t: nat)
    requires n < |es| && !InList(es[n], t) && NonEmpty(es)
    ensures MovedAll(Infos(es, t, HEADER), Offset(es, n), |es[n].bytes|) == Infos(Without(es, n), t, HEADER)
  {
    var a, e, b := es[..n], es[n], es[n + 1..];
    assert es == a + [e] + b;
    MovedIsRemoved(a, e, b, es, t);
    InfosJoin(a, b, a + b, t, HEADER);
  }

  /** Taking one element out of a block takes it out of the list. */
  lemma FlatDrop(bs: seq<Block>, k: nat, i: nat)
    requires k < |bs| && i < |bs[k]|
    ensures var c := |Flat(bs[k + 1..])| + i;
            && c < |Flat(bs)| && Flat(bs)[c] == bs[k][i]
            && Flat(bs[k := bs[k][..i] + bs[k][i + 1..]]) == Flat(bs)[..c] + Flat(bs)[c + 1..]
  {
    FlatAt(bs, k);
    FlatUpdate(bs, k, bs[k][..i] + bs[k][i + 1..]);
    DropMiddle(Flat(bs[k + 1..]), bs[k], Flat(bs[..k]), i);
  }

  lemma DropMiddle<T>(a: seq<T>, b: seq<T>, c: seq<T>, i: nat)
    requires i < |b|
    ensures var s, p := a + b + c, |a| + i;
            s[p] == b[i] && a + (b[..i] + b[i + 1..]) + c == s[..p] + s[p + 1..]
  {
  }
}
