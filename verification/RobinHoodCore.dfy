// The bucket array of contrib/ankerl/unordered_dense.h as a value: what it means for it to
// be well-ordered and to index a list of values, and the local steps (probe, shift up, shift
// back) that keep it so.  Positions are circular; distances count from one, so that an empty
// bucket (distance and fingerprint both zero) is below every probe.
module RobinHoodCore {

  /** Upper bytes: probe distance; lower byte: fingerprint (bucket_type::standard). */
  const DIST_INC: nat := 256

  datatype Bucket = Bucket(distAndFingerprint: nat, valueIdx: nat)
  {
    predicate Occupied() { distAndFingerprint != 0 }
  }

  const EMPTY := Bucket(0, 0)

  /** What a key's hash says about it: the home bucket and the fingerprint. */
  datatype Tag = Tag(home: nat, fingerprint: nat)

  function Next(i: nat, n: nat): (j: nat)
    requires i < n
    ensures j < n
  {
    if i + 1 == n then 0 else i + 1
  }

  /** The number of buckets looked at when probing from home up to and including i. */
  function Dist(home: nat, i: nat, n: nat): (d: nat)
    requires home < n && i < n
    ensures 1 <= d <= n
  {
    if home <= i then i - home + 1 else i + n - home + 1
  }

  /** The distance-and-fingerprint word an entry with this tag carries when stored at i. */
  function Word(tag: Tag, i: nat, n: nat): (w: nat)
    requires tag.home < n && i < n
    ensures w >= DIST_INC
  {
    DIST_INC * Dist(tag.home, i, n) + tag.fingerprint
  }

  ghost predicate OrderedAt(bs: seq<Bucket>, i: nat)
    requires i < |bs|
  {
    bs[Next(i, |bs|)].distAndFingerprint >= 2 * DIST_INC ==>
      bs[Next(i, |bs|)].distAndFingerprint <= bs[i].distAndFingerprint + DIST_INC
  }

  /** No bucket is more than one distance step above its predecessor. */
  ghost predicate Ordered(bs: seq<Bucket>) {
    forall i: nat | i < |bs| :: OrderedAt(bs, i)
  }

  ghost predicate TagsFit(tags: seq<Tag>, n: nat) {
    forall v: nat | v < |tags| :: tags[v].home < n && tags[v].fingerprint < DIST_INC
  }

  /** Bucket i is empty, or it holds one of the values, at that value's slot and distance. */
  ghost predicate PlacedAt(bs: seq<Bucket>, tags: seq<Tag>, slot: seq<nat>, i: nat)
    requires i < |bs| && |slot| == |tags| && TagsFit(tags, |bs|)
  {
    if bs[i].Occupied() then
      && bs[i].valueIdx < |tags|
      && slot[bs[i].valueIdx] == i
      && bs[i].distAndFingerprint == Word(tags[bs[i].valueIdx], i, |bs|)
    else
      bs[i] == EMPTY
  }

  ghost predicate SlotHolds(bs: seq<Bucket>, slot: seq<nat>, v: nat)
    requires v < |slot|
  {
    slot[v] < |bs| && bs[slot[v]].Occupied() && bs[slot[v]].valueIdx == v
  }

  /**
   * The buckets index the values: a well-ordered array in which buckets and values are in
   * bijection.  `hole` is a bucket whose content is being overwritten and `loose` a value
   * that currently has no bucket; both are -1 between operations.
   */
  ghost predicate Indexes(bs: seq<Bucket>, tags: seq<Tag>, slot: seq<nat>, hole: int, loose: int) {
    && |slot| == |tags|
    && TagsFit(tags, |bs|)
    && Ordered(bs)
    && (forall i: nat | i < |bs| && i != hole ::
        PlacedAt(bs, tags, slot, i) && (bs[i].Occupied() ==> bs[i].valueIdx != loose))
    && (forall v: nat | v < |slot| && v != loose :: SlotHolds(bs, slot, v) && slot[v] != hole)
  }

  ghost predicate HasEmpty(bs: seq<Bucket>) {
    exists e: nat :: e < |bs| && !bs[e].Occupied()
  }

  // ---- Counting ---------------------------------------------------------------------

  lemma {:induction false} CoveringNeedsLength(s: seq<nat>, n: nat)
    requires forall i: nat | i < n :: i in s
    ensures |s| >= n
  {
    if n > 0 {
      assert n - 1 in s;
      var k :| 0 <= k < |s| && s[k] == n - 1;
      var rest := s[..k] + s[k + 1..];
      forall i: nat | i < n - 1 ensures i in rest {
        assert i in s;
        var j :| 0 <= j < |s| && s[j] == i;
        assert rest[if j < k then j else j - 1] == i;
      }
      CoveringNeedsLength(rest, n - 1);
    }
  }

  /** Fewer values than buckets leave a bucket empty. */
  lemma SomeBucketEmpty(bs: seq<Bucket>, tags: seq<Tag>, slot: seq<nat>, hole: int, loose: int)
    requires Indexes(bs, tags, slot, hole, loose)
    requires |tags| < |bs|
    requires hole == -1
    ensures HasEmpty(bs)
  {
    if !HasEmpty(bs) {
      forall i: nat | i < |bs| ensures i in slot {
        assert bs[i].Occupied();
        assert PlacedAt(bs, tags, slot, i);
      }
      CoveringNeedsLength(slot, |bs|);
      assert false;
    }
  }

  // ---- Probing ----------------------------------------------------------------------

  /** The probe for `tag` has reached p, and every bucket before p is at or above its word. */
  ghost predicate Probed(bs: seq<Bucket>, tag: Tag, p: nat) {
    && tag.home < |bs|
    && tag.fingerprint < DIST_INC
    && p < |bs|
    && (forall q: nat | q < |bs| && Dist(tag.home, q, |bs|) < Dist(tag.home, p, |bs|) ::
         bs[q].distAndFingerprint >= Word(tag, q, |bs|))
  }

  /** All buckets before p on the tag's probe path are above the tag's word there. */
  ghost predicate AboveUpTo(bs: seq<Bucket>, tag: Tag, p: nat) {
    && tag.home < |bs| && p < |bs|
    && forall q: nat | q < |bs| && Dist(tag.home, q, |bs|) < Dist(tag.home, p, |bs|) ::
         bs[q].distAndFingerprint > Word(tag, q, |bs|)
  }

  lemma AboveOneMore(bs: seq<Bucket>, tag: Tag, p: nat)
    requires AboveUpTo(bs, tag, p) && bs[p].distAndFingerprint > Word(tag, p, |bs|)
    requires Dist(tag.home, Next(p, |bs|), |bs|) == Dist(tag.home, p, |bs|) + 1
    ensures AboveUpTo(bs, tag, Next(p, |bs|))
  {
    forall q: nat | q < |bs| && Dist(tag.home, q, |bs|) < Dist(tag.home, Next(p, |bs|), |bs|)
      ensures bs[q].distAndFingerprint > Word(tag, q, |bs|)
    {
      assert Dist(tag.home, q, |bs|) == Dist(tag.home, p, |bs|) ==> q == p;
    }
  }

  /** An entry's own probe path carries it: no bucket between home and i is below its word. */
  lemma {:induction false} PathCarries(bs: seq<Bucket>, tag: Tag, i: nat, q: nat)
    requires Ordered(bs) && tag.home < |bs| && tag.fingerprint < DIST_INC
    requires i < |bs| && bs[i].distAndFingerprint >= Word(tag, i, |bs|)
    requires q < |bs| && Dist(tag.home, q, |bs|) <= Dist(tag.home, i, |bs|)
    ensures bs[q].distAndFingerprint >= Word(tag, q, |bs|)
    decreases Dist(tag.home, i, |bs|) - Dist(tag.home, q, |bs|)
  {
    if q != i {
      var r := Next(q, |bs|);
      assert Dist(tag.home, r, |bs|) == Dist(tag.home, q, |bs|) + 1;
      PathCarries(bs, tag, i, r);
      assert OrderedAt(bs, q);
    }
  }

  /** With an empty bucket somewhere, a probe path that is carried up to p never wraps. */
  lemma CarriedPathEnds(bs: seq<Bucket>, tag: Tag, p: nat)
    requires HasEmpty(bs) && Probed(bs, tag, p)
    requires bs[p].distAndFingerprint >= Word(tag, p, |bs|)
    ensures Next(p, |bs|) != tag.home
    ensures Dist(tag.home, Next(p, |bs|), |bs|) == Dist(tag.home, p, |bs|) + 1
    ensures Probed(bs, tag, Next(p, |bs|))
  {
    var n := |bs|;
    var e: nat :| e < n && !bs[e].Occupied();
    assert bs[e].distAndFingerprint < Word(tag, e, n);
    forall q: nat | q < n && Dist(tag.home, q, n) < Dist(tag.home, Next(p, n), n)
      ensures bs[q].distAndFingerprint >= Word(tag, q, n)
    {
      if Dist(tag.home, q, n) == Dist(tag.home, p, n) {
        assert q == p;
      }
    }
  }

  /** Stored entries never wrap onto their own home. */
  lemma StoredPathEnds(bs: seq<Bucket>, tag: Tag, i: nat)
    requires Ordered(bs) && HasEmpty(bs)
    requires tag.home < |bs| && tag.fingerprint < DIST_INC
    requires i < |bs| && bs[i].distAndFingerprint == Word(tag, i, |bs|)
    ensures Probed(bs, tag, i)
    ensures Next(i, |bs|) != tag.home
    ensures Dist(tag.home, Next(i, |bs|), |bs|) == Dist(tag.home, i, |bs|) + 1
  {
    forall q: nat | q < |bs| && Dist(tag.home, q, |bs|) < Dist(tag.home, i, |bs|)
      ensures bs[q].distAndFingerprint >= Word(tag, q, |bs|)
    {
      PathCarries(bs, tag, i, q);
    }
    CarriedPathEnds(bs, tag, i);
  }

  /** Early exit is right: below the probe's word at p, no entry with this tag lies at or after p. */
  lemma NothingBeyond(bs: seq<Bucket>, tag: Tag, p: nat, i: nat)
    requires Ordered(bs) && tag.home < |bs| && tag.fingerprint < DIST_INC
    requires p < |bs| && i < |bs|
    requires bs[p].distAndFingerprint < Word(tag, p, |bs|)
    requires Dist(tag.home, p, |bs|) <= Dist(tag.home, i, |bs|)
    ensures bs[i].distAndFingerprint < Word(tag, i, |bs|)
  {
    if bs[i].distAndFingerprint >= Word(tag, i, |bs|) {
      PathCarries(bs, tag, i, p);
      assert false;
    }
  }

  /** The probe for value v (or for a key with no value, v == -1) has not passed v's bucket. */
  ghost predicate Seeking(bs: seq<Bucket>, tags: seq<Tag>, slot: seq<nat>, tag: Tag, v: int, p: nat) {
    && Probed(bs, tag, p)
    && |slot| == |tags|
    && (v == -1 || (0 <= v < |tags| && tags[v] == tag && slot[v] < |bs|
                    && Dist(tag.home, p, |bs|) <= Dist(tag.home, slot[v], |bs|)))
  }

  lemma SeekFromHome(bs: seq<Bucket>, tags: seq<Tag>, slot: seq<nat>, tag: Tag, v: int)
    requires Indexes(bs, tags, slot, -1, -1) && tag.home < |bs| && tag.fingerprint < DIST_INC
    requires v == -1 || (0 <= v < |tags| && tags[v] == tag)
    ensures Seeking(bs, tags, slot, tag, v, tag.home)
    ensures Word(tag, tag.home, |bs|) == DIST_INC + tag.fingerprint
  {
    if v != -1 {
      assert SlotHolds(bs, slot, v);
    }
  }

  /** A bucket at or above the probe's word that does not hold v is passed without wrapping. */
  lemma SeekStep(bs: seq<Bucket>, tags: seq<Tag>, slot: seq<nat>, tag: Tag, v: int, p: nat)
    requires Indexes(bs, tags, slot, -1, -1) && HasEmpty(bs)
    requires Seeking(bs, tags, slot, tag, v, p)
    requires bs[p].distAndFingerprint >= Word(tag, p, |bs|)
    requires bs[p].distAndFingerprint == Word(tag, p, |bs|) ==> bs[p].valueIdx != v
    ensures Seeking(bs, tags, slot, tag, v, Next(p, |bs|))
    ensures Dist(tag.home, Next(p, |bs|), |bs|) == Dist(tag.home, p, |bs|) + 1
    ensures Word(tag, Next(p, |bs|), |bs|) == Word(tag, p, |bs|) + DIST_INC
  {
    CarriedPathEnds(bs, tag, p);
    if v != -1 {
      assert SlotHolds(bs, slot, v);
      assert PlacedAt(bs, tags, slot, slot[v]);
      assert slot[v] != p;
    }
  }

  /** A bucket below the probe's word ends the search: there is no value to find. */
  lemma SeekMisses(bs: seq<Bucket>, tags: seq<Tag>, slot: seq<nat>, tag: Tag, v: int, p: nat)
    requires Indexes(bs, tags, slot, -1, -1) && Seeking(bs, tags, slot, tag, v, p)
    requires bs[p].distAndFingerprint < Word(tag, p, |bs|)
    ensures v == -1
  {
    if v != -1 {
      assert SlotHolds(bs, slot, v);
      assert PlacedAt(bs, tags, slot, slot[v]);
      NothingBeyond(bs, tag, p, slot[v]);
      assert false;
    }
  }

  /** Once below the probe's word, the buckets stay below it: a skipped exit is taken later. */
  lemma StaysBelow(bs: seq<Bucket>, tag: Tag, p: nat)
    requires Ordered(bs) && tag.home < |bs| && tag.fingerprint < DIST_INC && p < |bs|
    requires Next(p, |bs|) != tag.home
    requires bs[p].distAndFingerprint < Word(tag, p, |bs|)
    ensures bs[Next(p, |bs|)].distAndFingerprint < Word(tag, Next(p, |bs|), |bs|)
    ensures Word(tag, Next(p, |bs|), |bs|) == Word(tag, p, |bs|) + DIST_INC
  {
    assert OrderedAt(bs, p);
    assert Dist(tag.home, Next(p, |bs|), |bs|) == Dist(tag.home, p, |bs|) + 1;
  }

  lemma NoValues(bs: seq<Bucket>)
    requires forall i: nat | i < |bs| :: bs[i] == EMPTY
    ensures Indexes(bs, [], [], -1, -1)
  {
    forall i: nat | i < |bs| ensures OrderedAt(bs, i) {
    }
  }

  /** A value appended to the list has no bucket yet. */
  lemma AppendLoose(bs: seq<Bucket>, tags: seq<Tag>, slot: seq<nat>, tag: Tag)
    requires Indexes(bs, tags, slot, -1, -1)
    requires tag.home < |bs| && tag.fingerprint < DIST_INC
    ensures Indexes(bs, tags + [tag], slot + [0], -1, |tags|)
  {
    var tags', slot' := tags + [tag], slot + [0];
    forall i: nat | i < |bs| ensures PlacedAt(bs, tags', slot', i) && (bs[i].Occupied() ==> bs[i].valueIdx != |tags|) {
      assert PlacedAt(bs, tags, slot, i);
    }
    forall v: nat | v < |slot'| && v != |tags| ensures SlotHolds(bs, slot', v) && slot'[v] != -1 {
      assert SlotHolds(bs, slot, v);
    }
  }

  // ---- Shifting up ------------------------------------------------------------------

  /** The bucket in hand fits at `place`: it is at its distance there and keeps the order. */
  ghost predicate InHand(bs: seq<Bucket>, tags: seq<Tag>, hand: Bucket, place: nat)
    requires TagsFit(tags, |bs|)
  {
    && place < |bs|
    && hand.valueIdx < |tags|
    && hand.distAndFingerprint == Word(tags[hand.valueIdx], place, |bs|)
    && hand.distAndFingerprint >= bs[place].distAndFingerprint
    && (forall q: nat | q < |bs| && Next(q, |bs|) == place ::
         hand.distAndFingerprint >= 2 * DIST_INC ==> hand.distAndFingerprint <= bs[q].distAndFingerprint + DIST_INC)
  }

  /** Storing the bucket in hand at `place` keeps the order. */
  lemma SwapKeepsOrder(bs: seq<Bucket>, tags: seq<Tag>, hand: Bucket, place: nat)
    requires TagsFit(tags, |bs|) && Ordered(bs) && InHand(bs, tags, hand, place)
    ensures Ordered(bs[place := hand])
  {
    var after := bs[place := hand];
    forall i: nat | i < |bs| ensures OrderedAt(after, i) {
      assert OrderedAt(bs, i);
    }
  }

  /** One turn of place_and_shift_up: the displaced bucket moves one step on, in hand again. */
  lemma ShiftUpStep(bs: seq<Bucket>, tags: seq<Tag>, slot: seq<nat>, hand: Bucket, place: nat)
    requires Indexes(bs, tags, slot, -1, hand.valueIdx) && HasEmpty(bs)
    requires InHand(bs, tags, hand, place)
    requires bs[place].Occupied()
    ensures var moved := Bucket(bs[place].distAndFingerprint + DIST_INC, bs[place].valueIdx);
            && Indexes(bs[place := hand], tags, slot[hand.valueIdx := place], -1, moved.valueIdx)
            && HasEmpty(bs[place := hand])
            && InHand(bs[place := hand], tags, moved, Next(place, |bs|))
  {
    var n := |bs|;
    var moved := Bucket(bs[place].distAndFingerprint + DIST_INC, bs[place].valueIdx);
    var after, slot' := bs[place := hand], slot[hand.valueIdx := place];
    SwapKeepsOrder(bs, tags, hand, place);
    assert PlacedAt(bs, tags, slot, place);
    forall i: nat | i < n
      ensures PlacedAt(after, tags, slot', i) && (after[i].Occupied() ==> after[i].valueIdx != moved.valueIdx)
    {
      assert PlacedAt(bs, tags, slot, i);
    }
    forall v: nat | v < |slot| && v != moved.valueIdx ensures SlotHolds(after, slot', v) && slot'[v] != -1 {
      if v != hand.valueIdx {
        assert SlotHolds(bs, slot, v);
      }
    }
    StoredPathEnds(bs, tags[moved.valueIdx], place);
    assert OrderedAt(bs, place);
    var e: nat :| e < n && !bs[e].Occupied();
    assert !after[e].Occupied();
  }

  /** place_and_shift_up ends at an empty bucket, which takes the bucket in hand. */
  lemma ShiftUpEnd(bs: seq<Bucket>, tags: seq<Tag>, slot: seq<nat>, hand: Bucket, place: nat)
    requires Indexes(bs, tags, slot, -1, hand.valueIdx)
    requires InHand(bs, tags, hand, place)
    requires !bs[place].Occupied()
    ensures Indexes(bs[place := hand], tags, slot[hand.valueIdx := place], -1, -1)
  {
    var after, slot' := bs[place := hand], slot[hand.valueIdx := place];
    SwapKeepsOrder(bs, tags, hand, place);
    forall i: nat | i < |bs| ensures PlacedAt(after, tags, slot', i) {
      assert PlacedAt(bs, tags, slot, i);
    }
    forall v: nat | v < |slot| ensures SlotHolds(after, slot', v) && slot'[v] != -1 {
      if v != hand.valueIdx {
        assert SlotHolds(bs, slot, v);
      }
    }
  }

  /** A probe that stopped at p may start shifting up there. */
  lemma ProbeStopsInHand(bs: seq<Bucket>, tags: seq<Tag>, v: nat, p: nat)
    requires TagsFit(tags, |bs|) && v < |tags|
    requires Probed(bs, tags[v], p)
    requires Word(tags[v], p, |bs|) >= bs[p].distAndFingerprint
    ensures InHand(bs, tags, Bucket(Word(tags[v], p, |bs|), v), p)
  {
    forall q: nat | q < |bs| && Next(q, |bs|) == p && Word(tags[v], p, |bs|) >= 2 * DIST_INC
      ensures Word(tags[v], p, |bs|) <= bs[q].distAndFingerprint + DIST_INC
    {
      assert p != tags[v].home;
      assert Dist(tags[v].home, q, |bs|) + 1 == Dist(tags[v].home, p, |bs|);
    }
  }

  // ---- Shifting back ----------------------------------------------------------------

  /** Taking an entry out leaves its bucket as a hole; the order is untouched. */
  lemma TakeOut(bs: seq<Bucket>, tags: seq<Tag>, slot: seq<nat>, i: nat)
    requires Indexes(bs, tags, slot, -1, -1)
    requires i < |bs| && bs[i].Occupied()
    ensures Indexes(bs, tags, slot, i, bs[i].valueIdx)
  {
    assert PlacedAt(bs, tags, slot, i);
    forall j: nat | j < |bs| && j != i ensures bs[j].Occupied() ==> bs[j].valueIdx != bs[i].valueIdx {
      assert PlacedAt(bs, tags, slot, j);
    }
    forall v: nat | v < |slot| && v != bs[i].valueIdx ensures slot[v] != i {
      assert SlotHolds(bs, slot, v);
    }
  }

  /** One turn of the backward shift: the next entry moves one step closer to its home. */
  lemma ShiftBackStep(bs: seq<Bucket>, tags: seq<Tag>, slot: seq<nat>, hole: nat, loose: nat)
    requires hole < |bs| && |bs| >= 2 && Indexes(bs, tags, slot, hole, loose)
    requires bs[hole].Occupied()
    requires bs[Next(hole, |bs|)].distAndFingerprint >= 2 * DIST_INC
    ensures var next := Next(hole, |bs|);
            var moved := Bucket(bs[next].distAndFingerprint - DIST_INC, bs[next].valueIdx);
            && moved.valueIdx < |slot|
            && Indexes(bs[hole := moved], tags, slot[moved.valueIdx := hole], next, loose)
  {
    var n := |bs|;
    var next := Next(hole, n);
    var moved := Bucket(bs[next].distAndFingerprint - DIST_INC, bs[next].valueIdx);
    var after := bs[hole := moved];
    assert PlacedAt(bs, tags, slot, next);
    var slot' := slot[moved.valueIdx := hole];
    assert Dist(tags[moved.valueIdx].home, hole, n) + 1 == Dist(tags[moved.valueIdx].home, next, n);
    ShiftBackKeepsOrder(bs, hole);
    forall i: nat | i < n && i != next
      ensures PlacedAt(after, tags, slot', i) && (after[i].Occupied() ==> after[i].valueIdx != loose)
    {
      if i != hole {
        assert PlacedAt(bs, tags, slot, i);
      }
    }
    forall v: nat | v < |slot| && v != loose ensures SlotHolds(after, slot', v) && slot'[v] != next {
      assert SlotHolds(bs, slot, v);
    }
  }

  lemma ShiftBackKeepsOrder(bs: seq<Bucket>, hole: nat)
    requires hole < |bs| && |bs| >= 2 && Ordered(bs)
    requires bs[Next(hole, |bs|)].distAndFingerprint >= 2 * DIST_INC
    ensures Ordered(bs[hole := Bucket(bs[Next(hole, |bs|)].distAndFingerprint - DIST_INC,
            bs[Next(hole, |bs|)].valueIdx)])
  {
    var after := bs[hole := Bucket(bs[Next(hole, |bs|)].distAndFingerprint - DIST_INC, bs[Next(hole, |bs|)].valueIdx)];
    assert OrderedAt(bs, hole);
    forall i: nat | i < |bs| ensures OrderedAt(after, i) {
      assert OrderedAt(bs, i);
    }
  }

  /** The backward shift ends before an empty bucket or an entry at home: the hole is emptied. */
  lemma ShiftBackEnd(bs: seq<Bucket>, tags: seq<Tag>, slot: seq<nat>, hole: nat, loose: nat)
    requires hole < |bs| && |bs| >= 2 && Indexes(bs, tags, slot, hole, loose)
    requires bs[Next(hole, |bs|)].distAndFingerprint < 2 * DIST_INC
    ensures Indexes(bs[hole := EMPTY], tags, slot, -1, loose)
  {
    var after := bs[hole := EMPTY];
    forall i: nat | i < |bs| ensures OrderedAt(after, i) {
      assert OrderedAt(bs, i);
    }
    forall i: nat | i < |bs|
      ensures PlacedAt(after, tags, slot, i) && (after[i].Occupied() ==> after[i].valueIdx != loose)
    {
      if i != hole {
        assert PlacedAt(bs, tags, slot, i);
      }
    }
    forall v: nat | v < |slot| && v != loose ensures SlotHolds(after, slot, v) {
      assert SlotHolds(bs, slot, v);
    }
  }

  // ---- Swap with last ---------------------------------------------------------------

  /** The last value left: dropping it, once it is loose, closes the value list. */
  lemma DropLast(bs: seq<Bucket>, tags: seq<Tag>, slot: seq<nat>)
    requires |tags| > 0 && Indexes(bs, tags, slot, -1, |tags| - 1)
    ensures Indexes(bs, tags[..|tags| - 1], slot[..|tags| - 1], -1, -1)
  {
    var tags', slot' := tags[..|tags| - 1], slot[..|tags| - 1];
    forall i: nat | i < |bs| ensures PlacedAt(bs, tags', slot', i) {
      assert PlacedAt(bs, tags, slot, i);
    }
    forall v: nat | v < |slot'| ensures SlotHolds(bs, slot', v) && slot'[v] != -1 {
      assert SlotHolds(bs, slot, v);
    }
  }

  /** Renumbering the last value's bucket makes the last index the loose one. */
  lemma Renumber(bs: seq<Bucket>, tags: seq<Tag>, slot: seq<nat>, loose: nat)
    requires loose < |tags| - 1 && Indexes(bs, tags, slot, -1, loose)
    ensures var last := |tags| - 1;
            && slot[last] < |bs|
            && Indexes(bs[slot[last] := bs[slot[last]].(valueIdx := loose)],
                 tags[loose := tags[last]], slot[loose := slot[last]], -1, last)
  {
    var last := |tags| - 1;
    assert SlotHolds(bs, slot, last);
    var s := slot[last];
    var after, tags', slot' := bs[s := bs[s].(valueIdx := loose)], tags[loose := tags[last]], slot[loose := s];
    forall i: nat | i < |bs| ensures OrderedAt(after, i) {
      assert OrderedAt(bs, i);
    }
    forall i: nat | i < |bs|
      ensures PlacedAt(after, tags', slot', i) && (after[i].Occupied() ==> after[i].valueIdx != last)
    {
      assert PlacedAt(bs, tags, slot, i);
    }
    forall v: nat | v < |slot| && v != last ensures SlotHolds(after, slot', v) && slot'[v] != -1 {
      if v != loose {
        assert SlotHolds(bs, slot, v);
      }
    }
  }

  // ---- Width of the stored word -----------------------------------------------------

  lemma {:induction false} InjectiveIntoBound(s: seq<nat>, m: nat)
    requires forall a, b | 0 <= a < b < |s| :: s[a] != s[b]
    requires forall a | 0 <= a < |s| :: s[a] < m
    ensures |s| <= m
  {
    if |s| > 0 {
      assert s[0] < m;
      if k :| 0 <= k < |s| && s[k] == m - 1 {
        InjectiveIntoBound(s[..k] + s[k + 1..], m - 1);
      } else {
        InjectiveIntoBound(s, m - 1);
      }
    }
  }

  /** The bucket k - 1 steps after home, counting round the array. */
  function Along(home: nat, k: nat, n: nat): (i: nat)
    requires home < n && 1 <= k <= n
    ensures i < n && Dist(home, i, n) == k
  {
    if home + k - 1 < n then home + k - 1 else home + k - 1 - n
  }

  /** The buckets from an entry's home to its place hold distinct values. */
  lemma PathHoldsValues(bs: seq<Bucket>, tags: seq<Tag>, slot: seq<nat>, tag: Tag, i: nat, k: nat)
    requires Indexes(bs, tags, slot, -1, -1) && i < |bs|
    requires tag.home < |bs| && tag.fingerprint < DIST_INC && bs[i].distAndFingerprint == Word(tag, i, |bs|)
    requires 1 <= k <= Dist(tag.home, i, |bs|)
    ensures var q := Along(tag.home, k, |bs|);
            bs[q].valueIdx < |tags| && slot[bs[q].valueIdx] == q
  {
    var q := Along(tag.home, k, |bs|);
    PathCarries(bs, tag, i, q);
    assert PlacedAt(bs, tags, slot, q);
  }

  /**
   * A stored distance never exceeds the number of values, so with fewer than 2^24 - 2 of them
   * every stored word, and the next probe word after it, fits the 32-bit field.
   */
  lemma WordsFitField(bs: seq<Bucket>, tags: seq<Tag>, slot: seq<nat>, i: nat)
    requires Indexes(bs, tags, slot, -1, -1) && i < |bs| && bs[i].Occupied()
    ensures bs[i].distAndFingerprint < DIST_INC * (|tags| + 1)
    ensures |tags| < 0xFF_FFFF - 1 ==> bs[i].distAndFingerprint + DIST_INC < 0x1_0000_0000
  {
    assert PlacedAt(bs, tags, slot, i);
    var tag := tags[bs[i].valueIdx];
    DistanceBound(bs, tags, slot, tag, i);
  }

  lemma DistanceBound(bs: seq<Bucket>, tags: seq<Tag>, slot: seq<nat>, tag: Tag, i: nat)
    requires Indexes(bs, tags, slot, -1, -1) && i < |bs|
    requires tag.home < |bs| && tag.fingerprint < DIST_INC && bs[i].distAndFingerprint == Word(tag, i, |bs|)
    ensures Dist(tag.home, i, |bs|) <= |tags|
  {
    var d := Dist(tag.home, i, |bs|);
    var path := seq(d, k requires 0 <= k < d => bs[Along(tag.home, k + 1, |bs|)].valueIdx);
    forall k | 0 <= k < d
      ensures path[k] < |tags| && slot[path[k]] < |bs| && Dist(tag.home, slot[path[k]], |bs|) == k + 1
    {
      PathHoldsValues(bs, tags, slot, tag, i, k + 1);
    }
    InjectiveIntoBound(path, |tags|);
  }
}
