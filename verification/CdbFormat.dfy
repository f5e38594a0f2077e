// The constant database file format of contrib/cdb: numbers, hashes, records and their positions.
module CdbFormat {
  import opened Common

  const TWO32: nat := 0x1_0000_0000

  /** The table of contents: 256 pairs of numbers. */
  const HEADER: nat := 2048

  // ---- Numbers ------------------------------------------------------------------------------

  /** cdb_pack: four bytes, low one first. */
  function Pack(n: nat): (r: seq<Byte>)
    requires n < TWO32
    ensures |r| == 4
  {
    [n % 256, n / 256 % 256, n / 65536 % 256, n / 16777216]
  }

  /** cdb_unpack. */
  function Unpack(s: seq<Byte>): (n: nat)
    requires |s| == 4
    ensures n < TWO32
  {
    var d: nat := s[3];
    var c: nat := d * 256 + s[2];
    var b: nat := c * 256 + s[1];
    b * 256 + s[0]
  }

  /** The first byte is the lowest. */
  lemma PackDigits(n: nat)
    requires n < TWO32
    ensures var p := Pack(n); var a: nat, b: nat, c: nat, d: nat := p[0], p[1], p[2], p[3];
            n == a + 256 * b + 65536 * c + 16777216 * d
  {
    var a, b, c := n / 256, n / 65536, n / 16777216;
    assert a / 256 == b && b / 256 == c;
    assert n == a * 256 + n % 256 && a == b * 256 + a % 256 && b == c * 256 + b % 256;
  }

  lemma UnpackPack(n: nat)
    requires n < TWO32
    ensures Unpack(Pack(n)) == n
  {
    var a, b, c := n / 256, n / 65536, n / 16777216;
    assert a / 256 == b && b / 256 == c;
    assert n == a * 256 + n % 256 && a == b * 256 + a % 256 && b == c * 256 + b % 256;
  }

  lemma PackUnpack(s: seq<Byte>)
    requires |s| == 4
    ensures Pack(Unpack(s)) == s
  {
    var d: nat := s[3];
    var c: nat := d * 256 + s[2];
    var b: nat := c * 256 + s[1];
    var n: nat := b * 256 + s[0];
    assert n / 256 == b && n % 256 == s[0];
    assert b / 256 == c && b % 256 == s[1];
    assert c / 256 == d && c % 256 == s[2];
    assert n / 65536 == c && n / 16777216 == d;
  }

  /** The number at a position of a file. */
  function NumAt(file: seq<Byte>, pos: nat): nat
    requires pos + 4 <= |file|
  {
    Unpack(file[pos..pos + 4])
  }

  // ---- Hashes -------------------------------------------------------------------------------

  /** One step of cdb_hash. */
  function Mix(h: bv32, b: bv32): bv32 {
    (h + (h << 5)) ^ b
  }

  function Word(b: Byte): bv32 {
    b as nat as bv32
  }

  /** The hash as the machine word it is. */
  function HashWord(key: seq<Byte>): bv32 {
    if key == [] then 5381 else Mix(HashWord(key[..|key| - 1]), Word(key[|key| - 1]))
  }

  function Hash(key: seq<Byte>): (r: nat)
    ensures r < TWO32
  {
    HashWord(key) as nat
  }

  lemma HashStart()
    ensures Hash([]) == 5381
  {
  }

  lemma HashWordStep(key: seq<Byte>, b: Byte, more: seq<Byte>)
    requires more == key + [b]
    ensures HashWord(more) == Mix(HashWord(key), Word(b))
  {
    assert more[..|more| - 1] == key && more[|more| - 1] == b;
  }

  /**
   * The hash of the format, on machine words: the next byte goes by exclusive or into the word of the key and 32
   * times it.
   */
  lemma HashSteps(key: seq<Byte>, b: Byte, more: seq<Byte>)
    requires more == key + [b]
    ensures HashWord(more) == (HashWord(key) + (HashWord(key) << 5)) ^ Word(b)
  {
    HashWordStep(key, b, more);
  }

  /** The hash of a key is its word read as a number. */
  lemma HashIsWord(key: seq<Byte>, h: bv32)
    requires h == HashWord(key)
    ensures Hash(key) == h as nat && h == Hash(key) as bv32
  {
  }

  /** "a" */
  lemma HashOfA()
    ensures HashWord([97]) == 177604
  {
    assert [97][..0] == [];
  }

  /** cdb_hash. */
  method CdbHash(key: seq<Byte>) returns (h: nat)
    ensures h == Hash(key)
  {
    var hash: bv32 := 5381;
    for i := 0 to |key|
      invariant hash == HashWord(key[..i])
    {
      assert key[..i + 1][..i] == key[..i];
      hash := Mix(hash, Word(key[i]));
    }
    assert key[..|key|] == key;
    h := hash as nat;
  }

  // ---- Records ------------------------------------------------------------------------------

  /** A record as it is stored: two lengths, the key, the value. */
  function RecBytes(key: seq<Byte>, val: seq<Byte>): (r: seq<Byte>)
    requires |key| < TWO32 && |val| < TWO32
    ensures |r| == 8 + |key| + |val|
  {
    Pack(|key|) + Pack(|val|) + key + val
  }

  /**
   * A record of the data section, with its hash and its bytes; one that is not live is in no
   * hash table.
   */
  datatype Entry = Entry(key: seq<Byte>, val: seq<Byte>, live: bool, hval: nat, bytes: seq<Byte>)

  ghost predicate Sound(e: Entry) {
    && |e.key| < TWO32 && |e.val| < TWO32
    && e.hval == Hash(e.key) && e.bytes == RecBytes(e.key, e.val)
  }

  ghost predicate AllSound(es: seq<Entry>) {
    forall i {:trigger Sound(es[i])} | 0 <= i < |es| :: Sound(es[i])
  }

  function MakeEntry(key: seq<Byte>, val: seq<Byte>, live: bool): (e: Entry)
    requires |key| < TWO32 && |val| < TWO32
    ensures Sound(e)
  {
    Entry(key, val, live, Hash(key), RecBytes(key, val))
  }

  ghost predicate NonEmpty(es: seq<Entry>) {
    forall i | 0 <= i < |es| :: |es[i].bytes| > 0
  }

  lemma SoundNonEmpty(es: seq<Entry>)
    requires AllSound(es)
    ensures NonEmpty(es)
  {
    forall i | 0 <= i < |es| ensures |es[i].bytes| > 0 {
      assert Sound(es[i]);
    }
  }

  /** The data section. */
  ghost function Data(es: seq<Entry>): seq<Byte> {
    if es == [] then [] else es[0].bytes + Data(es[1..])
  }

  lemma {:induction false} DataJoin(a: seq<Entry>, b: seq<Entry>)
    ensures Data(a + b) == Data(a) + Data(b)
  {
    if a == [] {
      assert a + b == b;
    } else {
      DataJoin(a[1..], b);
      assert (a + b)[0] == a[0] && (a + b)[1..] == a[1..] + b;
      Assoc(a[0].bytes, Data(a[1..]), Data(b));
    }
  }

  lemma DataOne(e: Entry)
    ensures Data([e]) == e.bytes
  {
    assert [e][1..] == [];
  }

  /** Where the i-th record starts in the file. */
  ghost function Offset(es: seq<Entry>, i: nat): nat
    requires i <= |es|
  {
    HEADER + |Data(es[..i])|
  }

  lemma OffsetNext(es: seq<Entry>, i: nat)
    requires i < |es|
    ensures Offset(es, i + 1) == Offset(es, i) + |es[i].bytes|
  {
    assert es[..i + 1] == es[..i] + [es[i]];
    DataJoin(es[..i], [es[i]]);
    DataOne(es[i]);
  }

  /** These bytes are found there. */
  ghost predicate Holds(file: seq<Byte>, p: nat, bytes: seq<Byte>) {
    p + |bytes| <= |file| && file[p..p + |bytes|] == bytes
  }

  /** The bytes of the i-th record, in the data section. */
  lemma RecordAt(es: seq<Entry>, i: nat)
    requires i < |es|
    ensures Holds(Data(es), |Data(es[..i])|, es[i].bytes)
  {
    var a, e, b := es[..i], es[i], es[i + 1..];
    assert es == a + ([e] + b);
    DataAround(a, e, b);
  }

  lemma DataAround(a: seq<Entry>, e: Entry, b: seq<Entry>)
    ensures Data(a + ([e] + b)) == Data(a) + (e.bytes + Data(b))
    ensures Holds(Data(a + ([e] + b)), |Data(a)|, e.bytes)
  {
    DataJoin([e], b);
    DataOne(e);
    DataJoin(a, [e] + b);
    HoldsInside(Data(a), e.bytes, Data(b));
  }

  lemma HoldsInside(a: seq<Byte>, r: seq<Byte>, b: seq<Byte>)
    ensures Holds(a + (r + b), |a|, r)
  {
  }

  lemma SubSlice<T>(s: seq<T>, p: nat, q: nat, i: nat, j: nat)
    requires p <= q <= |s| && i <= j <= q - p
    ensures s[p..q][i..j] == s[p + i..p + j]
  {
    var a, b := s[p..q][i..j], s[p + i..p + j];
    assert forall k | 0 <= k < j - i :: a[k] == b[k];
  }

  /** What a reader finds at a record's position. */
  lemma RecordFields(file: seq<Byte>, p: nat, key: seq<Byte>, val: seq<Byte>)
    requires |key| < TWO32 && |val| < TWO32 && Holds(file, p, RecBytes(key, val))
    ensures p + 8 + |key| + |val| <= |file|
    ensures NumAt(file, p) == |key| && NumAt(file, p + 4) == |val|
    ensures Holds(file, p + 8, key) && Holds(file, p + 8 + |key|, val)
  {
    var k, v := |key|, |val|;
    var q := p + 8 + k + v;
    UnpackPack(k);
    UnpackPack(v);
    SubSlice(file, p, q, 0, 4);
    SubSlice(file, p, q, 4, 8);
    SubSlice(file, p, q, 8, 8 + k);
    SubSlice(file, p, q, 8 + k, 8 + k + v);
    RecParts(key, val);
  }

  lemma RecParts(key: seq<Byte>, val: seq<Byte>)
    requires |key| < TWO32 && |val| < TWO32
    ensures var r, k := RecBytes(key, val), |key|;
            r[0..4] == Pack(k) && r[4..8] == Pack(|val|) && r[8..8 + k] == key && r[8 + k..8 + k + |val|] == val
  {
  }
}
