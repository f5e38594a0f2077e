// detail::table of contrib/ankerl/unordered_dense.h: a dense vector of entries indexed by a
// robin-hood bucket array.  Every operation is proved against the finite map of its entries.
module RobinHood {
  import opened Common
  import opened RobinHoodCore

  datatype Entry<K, V> = Entry(key: K, value: V)

  type Hash64 = h: nat | h < Pow2(64)

  const INITIAL_SHIFTS: nat := 62

  /** Up to this many entries (1717986944) the table never needs its largest, 2^32-bucket, array. */
  const MAX_ENTRIES: nat := Capacity(Pow2(31))

  /** n times the default load factor 0.8F, whose exact value is 13421773 / 2^24. */
  function Capacity(n: nat): (c: nat)
    ensures n > 0 ==> c < n
  {
    n * 13421773 / 16777216
  }

  /** h >> s */
  function ShiftRight(h: nat, s: nat): nat {
    if s == 0 then h else ShiftRight(h / 2, s - 1)
  }

  function TagOf(hash: Hash64, shifts: nat): Tag {
    Tag(ShiftRight(hash, shifts), hash % DIST_INC)
  }

  lemma {:induction false} ShiftRightBound(h: nat, s: nat, width: nat)
    requires s <= width && h < Pow2(width)
    ensures ShiftRight(h, s) < Pow2(width - s)
  {
    if s > 0 {
      ShiftRightBound(h / 2, s - 1, width - 1);
    }
  }

  /** The top 64 - shifts bits of a hash are a bucket number. */
  lemma TagFits(hash: Hash64, shifts: nat)
    requires shifts <= 64
    ensures TagOf(hash, shifts).home < Pow2(64 - shifts)
    ensures TagOf(hash, shifts).fingerprint < DIST_INC
  {
    ShiftRightBound(hash, shifts, 64);
  }

  function Tags<K, V>(hash: K -> Hash64, vs: seq<Entry<K, V>>, shifts: nat): (tags: seq<Tag>)
    ensures |tags| == |vs|
  {
    seq(|vs|, i requires 0 <= i < |vs| => TagOf(hash(vs[i].key), shifts))
  }

  ghost predicate DistinctKeys<K, V>(vs: seq<Entry<K, V>>) {
    forall i, j | 0 <= i < j < |vs| :: vs[i].key != vs[j].key
  }

  ghost function IndexOf<K, V>(vs: seq<Entry<K, V>>, key: K): (v: int)
    ensures v == -1 ==> forall i | 0 <= i < |vs| :: vs[i].key != key
    ensures v != -1 ==> 0 <= v < |vs| && vs[v].key == key
  {
    if i :| 0 <= i < |vs| && vs[i].key == key then i else -1
  }

  ghost function KeySet<K, V>(vs: seq<Entry<K, V>>): set<K> {
    set i | 0 <= i < |vs| :: vs[i].key
  }

  /** The finite map a list of entries with distinct keys stands for. */
  ghost function MapOf<K, V>(vs: seq<Entry<K, V>>): map<K, V>
    requires DistinctKeys(vs)
  {
    map k | k in KeySet(vs) :: vs[IndexOf(vs, k)].value
  }

  /** What erasing entry i does to the dense vector: the last entry takes its place. */
  function SwapRemove<T>(vs: seq<T>, i: nat): (r: seq<T>)
    requires i < |vs|
    ensures |r| == |vs| - 1
  {
    if i == |vs| - 1 then vs[..|vs| - 1] else vs[i := vs[|vs| - 1]][..|vs| - 1]
  }

  lemma MapOfAt<K, V>(vs: seq<Entry<K, V>>, i: nat)
    requires DistinctKeys(vs) && i < |vs|
    ensures vs[i].key in MapOf(vs) && MapOf(vs)[vs[i].key] == vs[i].value
  {
  }

  lemma MapOfMisses<K, V>(vs: seq<Entry<K, V>>, key: K)
    requires DistinctKeys(vs) && forall i | 0 <= i < |vs| :: vs[i].key != key
    ensures key !in MapOf(vs)
  {
  }

  lemma MapOfIs<K, V>(vs: seq<Entry<K, V>>, m: map<K, V>)
    requires DistinctKeys(vs)
    requires forall i | 0 <= i < |vs| :: vs[i].key in m && m[vs[i].key] == vs[i].value
    requires m.Keys <= KeySet(vs)
    ensures MapOf(vs) == m
  {
    forall k | k in KeySet(vs) ensures k in m && MapOf(vs)[k] == m[k] {
      var i :| 0 <= i < |vs| && vs[i].key == k;
      MapOfAt(vs, i);
    }
  }

  lemma MapOfAppend<K, V>(vs: seq<Entry<K, V>>, e: Entry<K, V>)
    requires DistinctKeys(vs) && e.key !in MapOf(vs)
    ensures DistinctKeys(vs + [e])
    ensures MapOf(vs + [e]) == MapOf(vs)[e.key := e.value]
  {
    var vs' := vs + [e];
    forall i | 0 <= i < |vs| ensures vs'[i].key in MapOf(vs) && MapOf(vs)[vs'[i].key] == vs'[i].value {
      MapOfAt(vs, i);
    }
    forall k | k in KeySet(vs) ensures k in KeySet(vs') {
      var i :| 0 <= i < |vs| && vs[i].key == k;
      assert vs'[i].key == k;
    }
    assert vs'[|vs|].key == e.key;
    MapOfIs(vs', MapOf(vs)[e.key := e.value]);
  }

  lemma MapOfSwapRemove<K, V>(vs: seq<Entry<K, V>>, i: nat)
    requires DistinctKeys(vs) && i < |vs|
    ensures DistinctKeys(SwapRemove(vs, i))
    ensures MapOf(SwapRemove(vs, i)) == MapOf(vs) - {vs[i].key}
  {
    var r := SwapRemove(vs, i);
    forall j | 0 <= j < |r| ensures r[j].key in MapOf(vs) && MapOf(vs)[r[j].key] == r[j].value {
      MapOfAt(vs, if j == i then |vs| - 1 else j);
    }
    OtherKeysStay(vs, i);
    MapOfIs(r, MapOf(vs) - {vs[i].key});
  }

  lemma OtherKeysStay<K, V>(vs: seq<Entry<K, V>>, i: nat)
    requires i < |vs|
    ensures KeySet(vs) - {vs[i].key} <= KeySet(SwapRemove(vs, i))
  {
    var r := SwapRemove(vs, i);
    forall k | k in KeySet(vs) && k != vs[i].key ensures k in KeySet(r) {
      var j :| 0 <= j < |vs| && vs[j].key == k;
      assert r[if j == |vs| - 1 then i else j].key == k;
    }
  }

  lemma CapacityDoubles(n: nat)
    requires n >= 4
    ensures Capacity(n) + 1 <= Capacity(2 * n)
  {
  }

  /** One entry more than the buckets take still fits twice as many, below the largest array. */
  lemma RoomToGrow(shifts: nat, n: nat)
    requires 33 <= shifts <= INITIAL_SHIFTS && n <= MAX_ENTRIES
    requires n == Capacity(Pow2(64 - shifts)) + 1
    ensures 33 < shifts && n <= Capacity(Pow2(65 - shifts))
  {
    Pow2Grows(2, 64 - shifts);
    assert Pow2(2) == 4;
    CapacityDoubles(Pow2(64 - shifts));
    assert Pow2(65 - shifts) == 2 * Pow2(64 - shifts);
  }

  lemma TagsOfPrefix<K, V>(hash: K -> Hash64, vs: seq<Entry<K, V>>, shifts: nat, m: nat)
    requires m <= |vs|
    ensures Tags(hash, vs[..m], shifts) == Tags(hash, vs, shifts)[..m]
  {
  }

  /** Dropping entry v when an earlier entry has its key loses no key and adds no entry. */
  lemma DuplicateGoes<K, V>(vs: seq<Entry<K, V>>, v: nat, u: nat)
    requires u < v < |vs| && vs[u].key == vs[v].key
    ensures KeySet(SwapRemove(vs, v)) == KeySet(vs)
    ensures forall i | 0 <= i < |vs| - 1 :: SwapRemove(vs, v)[i] in vs
  {
    var r := SwapRemove(vs, v);
    forall k | k in KeySet(vs) ensures k in KeySet(r) {
      var i :| 0 <= i < |vs| && vs[i].key == k;
      assert r[if i == v then u else if i == |vs| - 1 then v else i].key == k;
    }
  }

  lemma OneKeyMore<K, V>(vs: seq<Entry<K, V>>, v: nat)
    requires v < |vs| && DistinctKeys(vs[..v]) && forall i | 0 <= i < v :: vs[i].key != vs[v].key
    ensures DistinctKeys(vs[..v + 1])
  {
    assert vs[..v + 1] == vs[..v] + [vs[v]];
  }

  /** An earlier entry has the key of entry v. */
  ghost predicate SeenBefore<K, V>(vs: seq<Entry<K, V>>, v: nat)
    requires v < |vs|
  {
    exists u | 0 <= u < v :: vs[u].key == vs[v].key
  }

  /** From entry v on, the last entry takes the place of one whose key was seen before. */
  ghost function Deduped<K, V>(vs: seq<Entry<K, V>>, v: nat): seq<Entry<K, V>>
    requires v <= |vs|
    decreases |vs| - v
  {
    if v == |vs| then vs
    else if SeenBefore(vs, v) then Deduped(SwapRemove(vs, v), v)
    else Deduped(vs, v + 1)
  }

  /** The first entries stay where they are as long as their keys are distinct. */
  lemma {:induction false} DedupedKeeps<K, V>(vs: seq<Entry<K, V>>, v: nat, n: nat)
    requires v <= |vs| && n <= |vs| && DistinctKeys(vs[..n])
    ensures n <= |Deduped(vs, v)| && Deduped(vs, v)[..n] == vs[..n]
    decreases |vs| - v
  {
    if v < |vs| {
      if SeenBefore(vs, v) {
        StaysInFront(vs, v, n);
        DedupedKeeps(SwapRemove(vs, v), v, n);
      } else {
        DedupedKeeps(vs, v + 1, n);
      }
    }
  }

  lemma StaysInFront<K, V>(vs: seq<Entry<K, V>>, v: nat, n: nat)
    requires v < |vs| && n <= |vs| && SeenBefore(vs, v) && DistinctKeys(vs[..n])
    ensures n <= v && SwapRemove(vs, v)[..n] == vs[..n]
  {
    var u :| 0 <= u < v && vs[u].key == vs[v].key;
  }

  lemma CapacityGrows(a: nat, b: nat)
    requires a <= b
    ensures Capacity(a) <= Capacity(b)
  {
  }

  class Table<K(==), V> {
    const hash: K -> Hash64
    var values: seq<Entry<K, V>>
    var buckets: array<Bucket>
    var maxBucketCapacity: nat
    var shifts: nat
    ghost var slot: seq<nat>

    ghost predicate Shaped()
      reads this
    {
      && 33 <= shifts <= INITIAL_SHIFTS
      && buckets.Length == Pow2(64 - shifts)
      && 4 <= buckets.Length
      && maxBucketCapacity == Capacity(buckets.Length)
    }

    ghost predicate Valid()
      reads this, buckets
    {
      && Shaped()
      && |values| <= maxBucketCapacity
      && DistinctKeys(values)
      && Indexes(buckets[..], Tags(hash, values, shifts), slot, -1, -1)
    }

    ghost function Contents(): map<K, V>
      reads this, buckets
      requires Valid()
    {
      MapOf(values)
    }

    /** allocate_buckets_from_shift followed by clear_buckets. */
    method AllocateBuckets()
      requires 33 <= shifts <= INITIAL_SHIFTS
      modifies this`buckets, this`maxBucketCapacity, this`slot
      ensures Shaped() && fresh(buckets) && slot == []
      ensures Indexes(buckets[..], [], slot, -1, -1)
    {
      assert Pow2(2) == 4;
      Pow2Grows(2, 64 - shifts);
      var n := Pow2(64 - shifts);
      buckets := new Bucket[n](_ => EMPTY);
      maxBucketCapacity := Capacity(n);
      slot := [];
      NoValues(buckets[..]);
    }

    constructor (hash: K -> Hash64)
      ensures Valid() && fresh(buckets) && this.hash == hash
      ensures Contents() == map[]
    {
      this.hash := hash;
      values := [];
      shifts := INITIAL_SHIFTS;
      new;
      AllocateBuckets();
      assert Tags(hash, values, shifts) == [];
    }

    /** The probe for a key: the first bucket not above the key's word, and the word there. */
    method NextWhileLess(key: K) returns (word: nat, p: nat)
      requires Shaped() && Ordered(buckets[..]) && HasEmpty(buckets[..])
      ensures Probed(buckets[..], TagOf(hash(key), shifts), p)
      ensures word == Word(TagOf(hash(key), shifts), p, buckets.Length)
      ensures word >= buckets[p].distAndFingerprint
      ensures AboveUpTo(buckets[..], TagOf(hash(key), shifts), p)
    {
      ghost var tag := TagOf(hash(key), shifts);
      TagFits(hash(key), shifts);
      var h := hash(key);
      word := DIST_INC + h % DIST_INC;
      p := ShiftRight(h, shifts);
      while word < buckets[p].distAndFingerprint
        invariant Probed(buckets[..], tag, p)
        invariant word == Word(tag, p, buckets.Length)
        invariant AboveUpTo(buckets[..], tag, p)
        decreases buckets.Length - Dist(tag.home, p, buckets.Length)
      {
        CarriedPathEnds(buckets[..], tag, p);
        AboveOneMore(buckets[..], tag, p);
        word := word + DIST_INC;
        p := Next(p, buckets.Length);
      }
    }

    /** One displacement: the bucket in hand is put down and the one it displaces is taken up. */
    method Displace(b: Bucket, p: nat, ghost tags: seq<Tag>, ghost e: nat) returns (hand: Bucket, place: nat)
      requires Indexes(buckets[..], tags, slot, -1, b.valueIdx) && HasEmpty(buckets[..])
               && InHand(buckets[..], tags, b, p)
      requires e < buckets.Length && !buckets[e].Occupied() && buckets[p].Occupied()
      modifies buckets, this`slot
      ensures Indexes(buckets[..], tags, slot, -1, hand.valueIdx) && HasEmpty(buckets[..])
              && InHand(buckets[..], tags, hand, place)
      ensures !buckets[e].Occupied() && Dist(place, e, buckets.Length) < Dist(p, e, buckets.Length)
    {
      ghost var bs := buckets[..];
      ShiftUpStep(bs, tags, slot, b, p);
      slot := slot[b.valueIdx := p];
      var displaced := buckets[p];
      buckets[p] := b;
      assert buckets[..] == bs[p := b];
      assert !buckets[e].Occupied();
      hand := Bucket(displaced.distAndFingerprint + DIST_INC, displaced.valueIdx);
      place := Next(p, buckets.Length);
    }

    /** Place a bucket, shifting the entries from there on up by one until an empty bucket is met. */
    method PlaceAndShiftUp(b: Bucket, p: nat, ghost tags: seq<Tag>)
      requires Indexes(buckets[..], tags, slot, -1, b.valueIdx) && HasEmpty(buckets[..])
      requires InHand(buckets[..], tags, b, p)
      modifies buckets, this`slot
      ensures Indexes(buckets[..], tags, slot, -1, -1)
    {
      var hand, place := b, p;
      ghost var e: nat :| e < buckets.Length && !buckets[e].Occupied();
      while buckets[place].Occupied()
        invariant Indexes(buckets[..], tags, slot, -1, hand.valueIdx) && HasEmpty(buckets[..])
        invariant InHand(buckets[..], tags, hand, place)
        invariant e < buckets.Length && !buckets[e].Occupied()
        decreases Dist(place, e, buckets.Length)
      {
        hand, place := Displace(hand, place, tags, e);
      }
      ShiftUpEnd(buckets[..], tags, slot, hand, place);
      slot := slot[hand.valueIdx := place];
      ghost var bs := buckets[..];
      buckets[place] := hand;
      assert buckets[..] == bs[place := hand];
    }

    /** Index every value in an array that indexes none (clear_and_fill_buckets_from_values). */
    method FillBuckets()
      requires Shaped() && slot == [] && Indexes(buckets[..], [], slot, -1, -1)
      requires |values| <= maxBucketCapacity
      modifies buckets, this`slot
      ensures Indexes(buckets[..], Tags(hash, values, shifts), slot, -1, -1)
    {
      ghost var tags := Tags(hash, values, shifts);
      for v := 0 to |values|
        invariant Indexes(buckets[..], tags[..v], slot, -1, -1)
      {
        TagFits(hash(values[v].key), shifts);
        SomeBucketEmpty(buckets[..], tags[..v], slot, -1, -1);
        var word, p := NextWhileLess(values[v].key);
        AppendLoose(buckets[..], tags[..v], slot, tags[v]);
        assert tags[..v] + [tags[v]] == tags[..v + 1];
        ProbeStopsInHand(buckets[..], tags[..v + 1], v, p);
        slot := slot + [0];
        PlaceAndShiftUp(Bucket(word, v), p, tags[..v + 1]);
      }
      assert tags[..|values|] == tags;
    }

    /** increase_size: twice the buckets, filled again from the values. */
    method IncreaseSize()
      requires 33 < shifts <= INITIAL_SHIFTS && DistinctKeys(values)
      requires |values| <= Capacity(Pow2(65 - shifts))
      modifies this`buckets, this`maxBucketCapacity, this`shifts, this`slot
      ensures Valid() && fresh(buckets)
    {
      shifts := shifts - 1;
      AllocateBuckets();
      FillBuckets();
    }

    /** Index value v, the first one not indexed yet, where its probe stopped. */
    method IndexNext(v: nat, word: nat, p: nat)
      requires Shaped() && v < |values| <= maxBucketCapacity
      requires Indexes(buckets[..], Tags(hash, values[..v], shifts), slot, -1, -1)
      requires var tag := TagOf(hash(values[v].key), shifts);
               && Probed(buckets[..], tag, p)
               && word == Word(tag, p, buckets.Length)
               && word >= buckets[p].distAndFingerprint
      modifies this`slot, buckets
      ensures Indexes(buckets[..], Tags(hash, values[..v + 1], shifts), slot, -1, -1)
    {
      ghost var before, tags := Tags(hash, values[..v], shifts), Tags(hash, values[..v + 1], shifts);
      assert before + [tags[v]] == tags;
      SomeBucketEmpty(buckets[..], before, slot, -1, -1);
      AppendLoose(buckets[..], before, slot, tags[v]);
      ProbeStopsInHand(buckets[..], tags, v, p);
      slot := slot + [0];
      PlaceAndShiftUp(Bucket(word, v), p, tags);
    }

    /** The part of an insertion after the entry was appended: index it, or grow. */
    method IndexLast(word: nat, p: nat)
      requires Shaped() && 0 < |values| <= MAX_ENTRIES && |values| <= maxBucketCapacity + 1
      requires DistinctKeys(values)
      requires var tags := Tags(hash, values[..|values| - 1], shifts);
               Indexes(buckets[..], tags, slot, -1, -1)
      requires var tag := TagOf(hash(values[|values| - 1].key), shifts);
               && Probed(buckets[..], tag, p)
               && word == Word(tag, p, buckets.Length)
               && word >= buckets[p].distAndFingerprint
      modifies this`buckets, this`maxBucketCapacity, this`shifts, this`slot, buckets
      ensures Valid()
      ensures buckets == old(buckets) || fresh(buckets)
    {
      var v := |values| - 1;
      if |values| > maxBucketCapacity {
        RoomToGrow(shifts, |values|);
        IncreaseSize();
      } else {
        IndexNext(v, word, p);
        assert values[..v + 1] == values;
      }
    }

    /**
     * The probe shared by the insertions: walk while the key's word is not above the bucket's,
     * comparing keys where the words agree.  Only the first m values are indexed.
     */
    method Probe(key: K, m: nat) returns (word: nat, p: nat, found: bool)
      requires Shaped() && m <= |values| && m < buckets.Length
      requires Indexes(buckets[..], Tags(hash, values[..m], shifts), slot, -1, -1)
      ensures p < buckets.Length
      ensures found ==> buckets[p].valueIdx < m && values[buckets[p].valueIdx].key == key
      ensures !found ==> forall i | 0 <= i < m :: values[i].key != key
      ensures !found ==> var tag := TagOf(hash(key), shifts);
                         && Probed(buckets[..], tag, p)
                         && word == Word(tag, p, buckets.Length)
                         && word > buckets[p].distAndFingerprint
    {
      ghost var bs, tags, tag := buckets[..], Tags(hash, values[..m], shifts), TagOf(hash(key), shifts);
      ghost var v := IndexOf(values[..m], key);
      TagFits(hash(key), shifts);
      SomeBucketEmpty(bs, tags, slot, -1, -1);
      SeekFromHome(bs, tags, slot, tag, v);
      var h := hash(key);
      word, p, found := DIST_INC + h % DIST_INC, ShiftRight(h, shifts), false;
      while word <= buckets[p].distAndFingerprint
        invariant Seeking(bs, tags, slot, tag, v, p) && word == Word(tag, p, |bs|)
        decreases |bs| - Dist(tag.home, p, |bs|)
      {
        assert PlacedAt(bs, tags, slot, p);
        if word == buckets[p].distAndFingerprint && key == values[buckets[p].valueIdx].key {
          found := true;
          return;
        }
        SeekStep(bs, tags, slot, tag, v, p);
        word := word + DIST_INC;
        p := Next(p, buckets.Length);
      }
      SeekMisses(bs, tags, slot, tag, v, p);
      forall i | 0 <= i < m ensures values[i].key != key {
        assert values[..m][i].key != key;
      }
    }

    /** do_place_element: append a new entry and index it where its probe stopped. */
    method PlaceElement(entry: Entry<K, V>, word: nat, p: nat)
      requires Valid() && |values| < MAX_ENTRIES && entry.key !in Contents()
      requires var tag := TagOf(hash(entry.key), shifts);
               && Probed(buckets[..], tag, p)
               && word == Word(tag, p, buckets.Length)
               && word >= buckets[p].distAndFingerprint
      modifies this`values, this`buckets, this`maxBucketCapacity, this`shifts, this`slot, buckets
      ensures Valid() && (buckets == old(buckets) || fresh(buckets))
      ensures values == old(values) + [entry]
      ensures Contents() == old(Contents())[entry.key := entry.value]
    {
      MapOfAppend(values, entry);
      values := values + [entry];
      assert values[..|values| - 1] == old(values);
      IndexLast(word, p);
    }

    /** do_try_emplace: the entry is built only when the key is new. */
    method TryEmplace(key: K, value: V) returns (i: nat, inserted: bool)
      requires Valid() && |values| < MAX_ENTRIES
      modifies this`values, this`buckets, this`maxBucketCapacity, this`shifts, this`slot, buckets
      ensures Valid() && (buckets == old(buckets) || fresh(buckets))
      ensures inserted <==> key !in old(Contents())
      ensures values == if inserted then old(values) + [Entry(key, value)] else old(values)
      ensures i < |values| && values[i].key == key
      ensures Contents() == if inserted then old(Contents())[key := value] else old(Contents())
    {
      assert values[..|values|] == values;
      var word, p, found := Probe(key, |values|);
      if found {
        MapOfAt(values, buckets[p].valueIdx);
        return buckets[p].valueIdx, false;
      }
      MapOfMisses(values, key);
      PlaceElement(Entry(key, value), word, p);
      return |values| - 1, true;
    }

    /** emplace: the entry is appended first and popped again when the key is already there. */
    method Emplace(entry: Entry<K, V>) returns (i: nat, inserted: bool)
      requires Valid() && |values| < MAX_ENTRIES
      modifies this`values, this`buckets, this`maxBucketCapacity, this`shifts, this`slot, buckets
      ensures Valid() && (buckets == old(buckets) || fresh(buckets))
      ensures inserted <==> entry.key !in old(Contents())
      ensures values == if inserted then old(values) + [entry] else old(values)
      ensures i < |values| && values[i].key == entry.key
      ensures Contents() == if inserted then old(Contents())[entry.key := entry.value] else old(Contents())
    {
      values := values + [entry];
      assert values[..|values| - 1] == old(values);
      var word, p, found := Probe(entry.key, |values| - 1);
      if found {
        values := values[..|values| - 1];
        MapOfAt(values, buckets[p].valueIdx);
        return buckets[p].valueIdx, false;
      }
      MapOfAppend(old(values), entry);
      IndexLast(word, p);
      return |values| - 1, true;
    }

    /** do_find; |values| stands for end(). */
    method Find(key: K) returns (i: nat)
      requires Valid()
      ensures if key in Contents() then i < |values| && values[i].key == key && values[i].value == Contents()[key]
              else i == |values|
    {
      if |values| == 0 {
        return 0;
      }
      i := FindUnrolled(key);
      if i < |values| {
        MapOfAt(values, i);
      } else {
        MapOfMisses(values, key);
      }
    }

    /** The two unrolled probes of do_find, which take no early exit, then the loop. */
    method FindUnrolled(key: K) returns (i: nat)
      requires Valid() && |values| > 0
      ensures IndexOf(values, key) != -1 ==> i < |values| && values[i].key == key
      ensures IndexOf(values, key) == -1 ==> i == |values|
    {
      ghost var bs, tags, tag := buckets[..], Tags(hash, values, shifts), TagOf(hash(key), shifts);
      ghost var v := IndexOf(values, key);
      TagFits(hash(key), shifts);
      SomeBucketEmpty(bs, tags, slot, -1, -1);
      SeekFromHome(bs, tags, slot, tag, v);
      var h := hash(key);
      var word, p := DIST_INC + h % DIST_INC, ShiftRight(h, shifts);
      var found := Matches(key, word, p);
      if found {
        return buckets[p].valueIdx;
      }
      SkippedExit(bs, tags, tag, v, p);
      word, p := word + DIST_INC, Next(p, buckets.Length);
      found := Matches(key, word, p);
      if found {
        return buckets[p].valueIdx;
      }
      SkippedExit(bs, tags, tag, v, p);
      i := FindFrom(key, word + DIST_INC, Next(p, buckets.Length));
    }

    /** The rolled part of do_find. */
    method FindFrom(key: K, word0: nat, p0: nat) returns (i: nat)
      requires Valid()
      requires var tag := TagOf(hash(key), shifts);
               && ProbingOrMissed(buckets[..], Tags(hash, values, shifts), tag, IndexOf(values, key), p0)
               && word0 == Word(tag, p0, buckets.Length)
      ensures IndexOf(values, key) != -1 ==> i < |values| && values[i].key == key
      ensures IndexOf(values, key) == -1 ==> i == |values|
    {
      ghost var bs, tags, tag := buckets[..], Tags(hash, values, shifts), TagOf(hash(key), shifts);
      ghost var v := IndexOf(values, key);
      SomeBucketEmpty(bs, tags, slot, -1, -1);
      var word, p := word0, p0;
      while true
        invariant ProbingOrMissed(bs, tags, tag, v, p) && word == Word(tag, p, |bs|)
        decreases |bs| - Dist(tag.home, p, |bs|)
      {
        var found := Matches(key, word, p);
        if found {
          return buckets[p].valueIdx;
        } else if word > buckets[p].distAndFingerprint {
          if Seeking(bs, tags, slot, tag, v, p) {
            SeekMisses(bs, tags, slot, tag, v, p);
          }
          return |values|;
        }
        SeekStep(bs, tags, slot, tag, v, p);
        word := word + DIST_INC;
        p := Next(p, buckets.Length);
      }
    }

    /** Still probing, or past a skipped exit: then there is nothing to find and p is below the word. */
    ghost predicate ProbingOrMissed(bs: seq<Bucket>, tags: seq<Tag>, tag: Tag, v: int, p: nat)
      reads this
    {
      || Seeking(bs, tags, slot, tag, v, p)
      || (v == -1 && tag.home < |bs| && tag.fingerprint < DIST_INC && p < |bs|
          && bs[p].distAndFingerprint < Word(tag, p, |bs|))
    }

    lemma SkippedExit(bs: seq<Bucket>, tags: seq<Tag>, tag: Tag, v: int, p: nat)
      requires Indexes(bs, tags, slot, -1, -1) && HasEmpty(bs) && |bs| >= 4
      requires ProbingOrMissed(bs, tags, tag, v, p)
      requires Dist(tag.home, p, |bs|) <= 2
      requires bs[p].distAndFingerprint == Word(tag, p, |bs|) ==> bs[p].valueIdx != v
      ensures ProbingOrMissed(bs, tags, tag, v, Next(p, |bs|))
      ensures Word(tag, Next(p, |bs|), |bs|) == Word(tag, p, |bs|) + DIST_INC
      ensures Dist(tag.home, Next(p, |bs|), |bs|) == Dist(tag.home, p, |bs|) + 1
    {
      if bs[p].distAndFingerprint >= Word(tag, p, |bs|) {
        SeekStep(bs, tags, slot, tag, v, p);
      } else {
        if Seeking(bs, tags, slot, tag, v, p) {
          SeekMisses(bs, tags, slot, tag, v, p);
        }
        StaysBelow(bs, tag, p);
      }
    }

    method Matches(key: K, word: nat, p: nat) returns (found: bool)
      requires Valid() && p < buckets.Length && word != 0
      ensures found <==> word == buckets[p].distAndFingerprint && buckets[p].valueIdx < |values|
                         && key == values[buckets[p].valueIdx].key
    {
      assert PlacedAt(buckets[..], Tags(hash, values, shifts), slot, p);
      found := word == buckets[p].distAndFingerprint && key == values[buckets[p].valueIdx].key;
    }

    /** do_erase */
    method DoErase(b: nat)
      requires Valid() && b < buckets.Length && buckets[b].Occupied()
      modifies this`values, this`slot, buckets
      ensures Valid()
      ensures old(buckets[b].valueIdx) < |old(values)| && values == SwapRemove(old(values), old(buckets[b].valueIdx))
      ensures Contents() == old(Contents()) - {old(values)[old(buckets[b].valueIdx)].key}
    {
      assert PlacedAt(buckets[..], Tags(hash, values, shifts), slot, b);
      MapOfSwapRemove(values, buckets[b].valueIdx);
      RemoveEntry(b);
    }

    /** Shift the following entries back by one, then let the last value take the free index. */
    method RemoveEntry(b: nat)
      requires Shaped() && b < buckets.Length && buckets[b].Occupied()
      requires |values| < buckets.Length && buckets[b].valueIdx < |values|
      requires Indexes(buckets[..], Tags(hash, values, shifts), slot, -1, -1)
      modifies this`values, this`slot, buckets
      ensures Indexes(buckets[..], Tags(hash, values, shifts), slot, -1, -1)
      ensures values == SwapRemove(old(values), old(buckets[b].valueIdx))
    {
      ghost var tags := Tags(hash, values, shifts);
      var toRemove := buckets[b].valueIdx;
      ShiftBack(b, tags);
      if toRemove != |values| - 1 {
        MoveLast(toRemove, tags);
        tags := tags[toRemove := tags[|tags| - 1]];
      }
      assert Tags(hash, values, shifts) == tags;
      PopLast();
    }

    /** The last value goes, which has no bucket any more. */
    method PopLast()
      requires |values| > 0 && Indexes(buckets[..], Tags(hash, values, shifts), slot, -1, |values| - 1)
      modifies this`values, this`slot
      ensures values == old(values)[..|old(values)| - 1]
      ensures Indexes(buckets[..], Tags(hash, values, shifts), slot, -1, -1)
    {
      DropLast(buckets[..], Tags(hash, values, shifts), slot);
      TagsOfPrefix(hash, values, shifts, |values| - 1);
      values := values[..|values| - 1];
      slot := slot[..|slot| - 1];
    }

    /** The last value moves to the removed one's index, and its bucket is told so. */
    method MoveLast(toRemove: nat, ghost tags: seq<Tag>)
      requires Shaped() && toRemove < |values| - 1 && tags == Tags(hash, values, shifts)
      requires Indexes(buckets[..], tags, slot, -1, toRemove)
      modifies this`values, this`slot, buckets
      ensures values == old(values)[toRemove := old(values)[|old(values)| - 1]]
      ensures Indexes(buckets[..], tags[toRemove := tags[|tags| - 1]], slot, -1, |tags| - 1)
    {
      var last := |values| - 1;
      values := values[toRemove := values[last]];
      var p := FindMoved(values[toRemove].key, last, toRemove, tags);
      Renumber(buckets[..], tags, slot, toRemove);
      ghost var bs := buckets[..];
      buckets[p] := buckets[p].(valueIdx := toRemove);
      assert buckets[..] == bs[p := bs[p].(valueIdx := toRemove)];
      slot := slot[toRemove := slot[last]];
    }

    /** The backward shift: afterwards the removed value has no bucket and every other one still has. */
    method ShiftBack(b: nat, ghost tags: seq<Tag>)
      requires Shaped() && b < buckets.Length && buckets[b].Occupied() && |tags| < buckets.Length
      requires Indexes(buckets[..], tags, slot, -1, -1)
      modifies this`slot, buckets
      ensures Indexes(buckets[..], tags, slot, -1, old(buckets[b].valueIdx))
    {
      ghost var loose := buckets[b].valueIdx;
      SomeBucketEmpty(buckets[..], tags, slot, -1, -1);
      TakeOut(buckets[..], tags, slot, b);
      ghost var e: nat :| e < buckets.Length && !buckets[e].Occupied();
      var hole, next := b, Next(b, buckets.Length);
      while buckets[next].distAndFingerprint >= 2 * DIST_INC
        invariant hole < buckets.Length && next == Next(hole, buckets.Length)
        invariant Indexes(buckets[..], tags, slot, hole, loose)
        invariant buckets[hole].Occupied() && e < buckets.Length && !buckets[e].Occupied()
        decreases Dist(hole, e, buckets.Length)
      {
        PullBack(hole, next, tags, loose);
        hole, next := next, Next(next, buckets.Length);
      }
      ghost var bs := buckets[..];
      ShiftBackEnd(bs, tags, slot, hole, loose);
      buckets[hole] := EMPTY;
      assert buckets[..] == bs[hole := EMPTY];
    }

    /** One turn of the backward shift. */
    method PullBack(hole: nat, next: nat, ghost tags: seq<Tag>, ghost loose: nat)
      requires hole < buckets.Length && 2 <= buckets.Length && next == Next(hole, buckets.Length)
      requires buckets[hole].Occupied() && buckets[next].distAndFingerprint >= 2 * DIST_INC
      requires Indexes(buckets[..], tags, slot, hole, loose)
      modifies this`slot, buckets
      ensures Indexes(buckets[..], tags, slot, next, loose)
      ensures buckets[next].Occupied()
      ensures forall i | 0 <= i < buckets.Length && i != hole :: buckets[i] == old(buckets[i])
    {
      ghost var bs := buckets[..];
      ShiftBackStep(bs, tags, slot, hole, loose);
      var moved := Bucket(buckets[next].distAndFingerprint - DIST_INC, buckets[next].valueIdx);
      buckets[hole] := moved;
      assert buckets[..] == bs[hole := moved];
      slot := slot[moved.valueIdx := hole];
    }

    /** The search for the moved last value: it ends on that value's own bucket, never on an empty one. */
    method FindMoved(key: K, last: nat, ghost loose: nat, ghost tags: seq<Tag>) returns (p: nat)
      requires Shaped() && loose < last && last == |tags| - 1
      requires Indexes(buckets[..], tags, slot, -1, loose)
      requires tags[last] == TagOf(hash(key), shifts)
      ensures p == slot[last] && p < buckets.Length && buckets[p].Occupied() && buckets[p].valueIdx == last
    {
      ghost var bs, home := buckets[..], tags[last].home;
      assert SlotHolds(bs, slot, last);
      p := ShiftRight(hash(key), shifts);
      while last != buckets[p].valueIdx
        invariant p < |bs| && Dist(home, p, |bs|) <= Dist(home, slot[last], |bs|)
        decreases Dist(home, slot[last], |bs|) - Dist(home, p, |bs|)
      {
        p := Next(p, buckets.Length);
      }
      assert PlacedAt(bs, tags, slot, p);
    }

    /** do_erase_key */
    method EraseKey(key: K) returns (count: nat)
      requires Valid()
      modifies this`values, this`slot, buckets
      ensures Valid()
      ensures count == if key in old(Contents()) then 1 else 0
      ensures Contents() == old(Contents()) - {key} && |values| == |old(values)| - count
    {
      if |values| == 0 {
        return 0;
      }
      var p, found := LocateKey(key);
      if !found {
        MapOfMisses(values, key);
        return 0;
      }
      MapOfAt(values, buckets[p].valueIdx);
      DoErase(p);
      return 1;
    }

    /** The two search loops of do_erase_key: skip the larger words, then compare keys on equal ones. */
    method LocateKey(key: K) returns (p: nat, found: bool)
      requires Valid() && |values| > 0
      ensures found ==> p < buckets.Length && buckets[p].Occupied()
                        && buckets[p].valueIdx < |values| && values[buckets[p].valueIdx].key == key
      ensures !found ==> IndexOf(values, key) == -1
    {
      ghost var bs, tags, tag := buckets[..], Tags(hash, values, shifts), TagOf(hash(key), shifts);
      ghost var v := IndexOf(values, key);
      SomeBucketEmpty(bs, tags, slot, -1, -1);
      var word;
      word, p := NextWhileLess(key);
      if v != -1 {
        assert SlotHolds(bs, slot, v);
        assert PlacedAt(bs, tags, slot, slot[v]);
      }
      assert PlacedAt(bs, tags, slot, p);
      while word == buckets[p].distAndFingerprint && key != values[buckets[p].valueIdx].key
        invariant Seeking(bs, tags, slot, tag, v, p) && word == Word(tag, p, |bs|)
        invariant word >= buckets[p].distAndFingerprint
        invariant buckets[p].Occupied() ==> buckets[p].valueIdx < |values|
        decreases |bs| - Dist(tag.home, p, |bs|)
      {
        assert OrderedAt(bs, p);
        SeekStep(bs, tags, slot, tag, v, p);
        word := word + DIST_INC;
        p := Next(p, buckets.Length);
        assert PlacedAt(bs, tags, slot, p);
      }
      found := word == buckets[p].distAndFingerprint;
      if !found {
        SeekMisses(bs, tags, slot, tag, v, p);
      }
    }

    /** erase(iterator): find the bucket of value i from its key's home, then erase it. */
    method EraseAt(i: nat)
      requires Valid() && i < |values|
      modifies this`values, this`slot, buckets
      ensures Valid()
      ensures values == SwapRemove(old(values), i)
      ensures Contents() == old(Contents()) - {old(values)[i].key}
    {
      var p := BucketOf(i);
      DoErase(p);
    }

    /** The search compares value indices only, so it must not meet an empty bucket before value i's. */
    method BucketOf(i: nat) returns (p: nat)
      requires Valid() && i < |values|
      ensures p < buckets.Length && buckets[p].Occupied() && buckets[p].valueIdx == i
    {
      ghost var bs, tags := buckets[..], Tags(hash, values, shifts);
      ghost var tag, s := tags[i], slot[i];
      SomeBucketEmpty(bs, tags, slot, -1, -1);
      assert SlotHolds(bs, slot, i);
      assert PlacedAt(bs, tags, slot, s);
      StoredPathEnds(bs, tag, s);
      p := WalkToIndex(ShiftRight(hash(values[i].key), shifts), i, tag, s);
    }

    /** The search loop, from the home of a tag to the bucket s that holds value i. */
    method WalkToIndex(home: nat, i: nat, ghost tag: Tag, ghost s: nat) returns (p: nat)
      requires Probed(buckets[..], tag, s) && home == tag.home && buckets[s].Occupied() && buckets[s].valueIdx == i
      ensures p < buckets.Length && buckets[p].Occupied() && buckets[p].valueIdx == i
    {
      ghost var n := buckets.Length;
      p := home;
      while buckets[p].valueIdx != i
        invariant p < n && Dist(home, p, n) <= Dist(home, s, n)
        decreases Dist(home, s, n) - Dist(home, p, n)
      {
        p := Next(p, buckets.Length);
      }
    }

    /** calc_shifts_for_size: the smallest array whose capacity holds `size` entries. */
    method CalcShiftsForSize(size: nat) returns (r: nat)
      requires size <= MAX_ENTRIES
      ensures 33 <= r <= INITIAL_SHIFTS && size <= Capacity(Pow2(64 - r))
      ensures r < INITIAL_SHIFTS ==> Capacity(Pow2(63 - r)) < size
    {
      r := INITIAL_SHIFTS;
      while r > 0 && Capacity(Pow2(64 - r)) < size
        invariant 33 <= r <= INITIAL_SHIFTS
        invariant r < INITIAL_SHIFTS ==> Capacity(Pow2(63 - r)) < size
      {
        r := r - 1;
      }
    }

    /** rehash: move to the array size fit for max(count, size()), filled again from the values. */
    method Rehash(count: nat)
      requires Valid() && count <= MAX_ENTRIES && |values| <= MAX_ENTRIES
      modifies this`buckets, this`maxBucketCapacity, this`shifts, this`slot, buckets
      ensures Valid() && (buckets == old(buckets) || fresh(buckets))
      ensures Contents() == old(Contents()) && values == old(values)
      ensures count <= maxBucketCapacity
    {
      var r := CalcShiftsForSize(if count < |values| then |values| else count);
      if r != shifts {
        shifts := r;
        AllocateBuckets();
        FillBuckets();
      }
    }

    /** replace: take over a container, dropping the entries whose key is already indexed. */
    method Replace(container: seq<Entry<K, V>>)
      requires Valid() && |container| <= MAX_ENTRIES
      modifies this`values, this`buckets, this`maxBucketCapacity, this`shifts, this`slot, buckets
      ensures Valid() && (buckets == old(buckets) || fresh(buckets))
      ensures KeySet(values) == KeySet(container) && |values| <= |container|
      ensures forall i | 0 <= i < |values| :: values[i] in container
      ensures values == Deduped(container, 0) && (DistinctKeys(container) ==> values == container)
    {
      ClearForSize(|container|);
      values := container;
      IndexUnique(container);
      if DistinctKeys(container) {
        assert container[..|container|] == container;
        DedupedKeeps(container, 0, |container|);
      }
    }

    /** An empty index with room for `size` entries. */
    method ClearForSize(size: nat)
      requires Shaped() && size <= MAX_ENTRIES
      modifies this`buckets, this`maxBucketCapacity, this`shifts, this`slot, buckets
      ensures Shaped() && size <= maxBucketCapacity && slot == []
      ensures Indexes(buckets[..], [], slot, -1, -1)
      ensures buckets == old(buckets) || fresh(buckets)
    {
      var r := CalcShiftsForSize(size);
      if r < shifts {
        shifts := r;
        AllocateBuckets();
      } else {
        Pow2Grows(64 - r, 64 - shifts);
        CapacityGrows(Pow2(64 - r), Pow2(64 - shifts));
        forall i | 0 <= i < buckets.Length {
          buckets[i] := EMPTY;
        }
        slot := [];
        NoValues(buckets[..]);
      }
    }

    /** The loop of replace: a duplicate is overwritten by the last value, anything else is indexed. */
    method IndexUnique(container: seq<Entry<K, V>>)
      requires Shaped() && values == container && |values| <= maxBucketCapacity && slot == []
      requires Indexes(buckets[..], [], slot, -1, -1)
      modifies this`values, this`slot, buckets
      ensures Valid() && buckets == old(buckets)
      ensures KeySet(values) == KeySet(container) && |values| <= |container|
      ensures forall i | 0 <= i < |values| :: values[i] in container
      ensures values == Deduped(container, 0)
    {
      var v: nat := 0;
      assert Tags(hash, values[..0], shifts) == [];
      while v != |values|
        invariant UniqueUpTo(container, v)
        decreases |values| - v
      {
        v := IndexOrDrop(container, v);
      }
      assert values[..v] == values;
    }

    /** The first v values are indexed and have a key each of their own; no key of the container is lost. */
    ghost predicate UniqueUpTo(container: seq<Entry<K, V>>, v: nat)
      reads this, buckets
    {
      && Shaped() && v <= |values| <= maxBucketCapacity
      && Indexes(buckets[..], Tags(hash, values[..v], shifts), slot, -1, -1)
      && DistinctKeys(values[..v])
      && KeySet(values) == KeySet(container) && |values| <= |container|
      && (forall i | 0 <= i < |values| :: values[i] in container)
      && Deduped(values, v) == Deduped(container, 0)
    }

    /** One turn of that loop. */
    method IndexOrDrop(container: seq<Entry<K, V>>, v: nat) returns (next: nat)
      requires UniqueUpTo(container, v) && v < |values|
      modifies this`values, this`slot, buckets
      ensures UniqueUpTo(container, next) && 0 <= |values| - next < |old(values)| - v
    {
      var word, p, found := Probe(values[v].key, v);
      if found {
        DropDuplicate(container, v, buckets[p].valueIdx);
        next := v;
      } else {
        OneKeyMore(values, v);
        IndexNext(v, word, p);
        next := v + 1;
      }
    }

    /** Value v has the key of an earlier one: the last value takes its place. */
    method DropDuplicate(container: seq<Entry<K, V>>, v: nat, ghost u: nat)
      requires UniqueUpTo(container, v) && u < v < |values| && values[u].key == values[v].key
      modifies this`values
      ensures UniqueUpTo(container, v) && |values| == |old(values)| - 1
    {
      DuplicateGoes(values, v, u);
      assert SwapRemove(values, v)[..v] == values[..v];
      values := SwapRemove(values, v);
    }
  }
}
