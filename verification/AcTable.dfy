// The packed transition table of contrib/aho-corasick/_acism.h: how a transition word is laid
// out, and what it means for a table to encode the automaton of a list of patterns.
module AcTable {
  import opened Common
  import opened AcSpec
  import opened AcScan

  const MATCH_BIT: nat := 0x8000_0000
  const SUFFIX_BIT: nat := 0x4000_0000

  /** (next << bits) | sym */
  function Join(next: nat, sym: nat, bits: nat): nat {
    if bits == 0 then next else sym % 2 + 2 * Join(next, sym / 2, bits - 1)
  }

  /** w & ((1 << bits) - 1) */
  function LowBits(w: nat, bits: nat): nat {
    if bits == 0 then 0 else w % 2 + 2 * LowBits(w / 2, bits - 1)
  }

  /** w >> bits */
  function HighBits(w: nat, bits: nat): nat {
    if bits == 0 then w else HighBits(w / 2, bits - 1)
  }

  lemma {:induction false} JoinSplits(next: nat, sym: nat, bits: nat)
    requires sym < Pow2(bits)
    ensures LowBits(Join(next, sym, bits), bits) == sym && HighBits(Join(next, sym, bits), bits) == next
  {
    if bits > 0 {
      JoinSplits(next, sym / 2, bits - 1);
    }
  }

  lemma {:induction false} JoinBound(next: nat, sym: nat, bits: nat, width: nat)
    requires bits <= width && next < Pow2(width - bits)
    ensures Join(next, sym, bits) < Pow2(width)
  {
    if bits > 0 {
      JoinBound(next, sym / 2, bits - 1, width - 1);
    }
  }

  /** The fields of a 32-bit transition word: symbol below, then the next state, two flags on top. */
  datatype Tran = Tran(sym: nat, next: nat, isMatch: bool, hasSuffix: bool)

  /** set_tran's word: sym | flags | next << bits. */
  function Pack(t: Tran, bits: nat): nat {
    Join(t.next, t.sym, bits) + (if t.hasSuffix then SUFFIX_BIT else 0) + (if t.isMatch then MATCH_BIT else 0)
  }

  /** The accessors t_sym, t_next and the flag tests. */
  function Unpack(w: nat, bits: nat): Tran {
    Tran(LowBits(w % SUFFIX_BIT, bits), HighBits(w % SUFFIX_BIT, bits), w / MATCH_BIT % 2 == 1, w / SUFFIX_BIT % 2 == 1)
  }

  /** A word whose fields fit is read back field by field. */
  lemma PackRoundTrip(t: Tran, bits: nat)
    requires t.sym < Pow2(bits) && bits <= 30 && t.next < Pow2(30 - bits)
    ensures Unpack(Pack(t, bits), bits) == t
    ensures Pack(t, bits) < 0x1_0000_0000
  {
    JoinSplits(t.next, t.sym, bits);
    JoinBound(t.next, t.sym, bits, 30);
    PowThirty();
    FlagsOnTop(Join(t.next, t.sym, bits), t.isMatch, t.hasSuffix);
  }

  lemma FlagsOnTop(low: nat, isMatch: bool, hasSuffix: bool)
    requires low < SUFFIX_BIT
    ensures var w := low + (if hasSuffix then SUFFIX_BIT else 0) + (if isMatch then MATCH_BIT else 0);
            && w % SUFFIX_BIT == low && w < 0x1_0000_0000
            && (w / MATCH_BIT % 2 == 1 <==> isMatch) && (w / SUFFIX_BIT % 2 == 1 <==> hasSuffix)
  {
  }

  lemma PowThirty()
    ensures Pow2(30) == SUFFIX_BIT
  {
    assert Pow2(10) == 1024;
    assert Pow2(15) == 32 * Pow2(10);
    assert Pow2(20) == 32 * Pow2(15);
    assert Pow2(25) == 32 * Pow2(20);
    assert Pow2(30) == 32 * Pow2(25);
  }

  /** An empty word reads as symbol 0 of state 0. */
  lemma {:induction false} EmptyWord(bits: nat)
    ensures LowBits(0, bits) == 0 && HighBits(0, bits) == 0
  {
    if bits > 0 {
      EmptyWord(bits - 1);
    }
  }

  // ---- The exclusive or with the symbol ---------------------------------------------------------

  function Xor(x: nat, y: nat): nat {
    if x == 0 && y == 0 then 0 else (if x % 2 == y % 2 then 0 else 1) + 2 * Xor(x / 2, y / 2)
  }

  lemma {:induction false} XorZero(x: nat, y: nat)
    ensures Xor(x, y) == 0 <==> x == y
  {
    if x != 0 || y != 0 {
      XorZero(x / 2, y / 2);
    }
  }

  /** Bits beyond those of y stay, the others are combined. */
  lemma {:induction false} XorSplit(x: nat, y: nat, bits: nat)
    requires y < Pow2(bits)
    ensures HighBits(Xor(x, y), bits) == HighBits(x, bits) && LowBits(Xor(x, y), bits) == Xor(LowBits(x, bits), y)
  {
    if bits > 0 {
      XorSplit(x / 2, y / 2, bits - 1);
    } else {
      XorWithNothing(x);
    }
  }

  lemma {:induction false} XorWithNothing(x: nat)
    ensures Xor(x, 0) == x
  {
    if x > 0 {
      XorWithNothing(x / 2);
    }
  }

  lemma {:induction false} BitsAgain(w: nat, bits: nat)
    ensures w == HighBits(w, bits) * Pow2(bits) + LowBits(w, bits) && LowBits(w, bits) < Pow2(bits)
  {
    if bits > 0 {
      BitsAgain(w / 2, bits - 1);
      OneBitMore(w, HighBits(w / 2, bits - 1), LowBits(w / 2, bits - 1), Pow2(bits - 1));
    }
  }

  lemma OneBitMore(w: nat, high: nat, low: nat, p: nat)
    requires w / 2 == high * p + low && low < p
    ensures w == high * (2 * p) + (w % 2 + 2 * low) && w % 2 + 2 * low < 2 * p
  {
    assert high * (2 * p) == 2 * (high * p);
  }

  /** The flags and the thirty bits below them. */
  lemma UnpackBits(w: nat, bits: nat)
    ensures var low, high := LowBits(w, 30), HighBits(w, 30);
            Unpack(w, bits) == Tran(LowBits(low, bits), HighBits(low, bits), high / 2 % 2 == 1, high % 2 == 1)
  {
    BitsAgain(w, 30);
    PowThirty();
    FlagsApart(w, LowBits(w, 30), HighBits(w, 30));
  }

  lemma FlagsApart(w: nat, low: nat, high: nat)
    requires w == high * SUFFIX_BIT + low && low < SUFFIX_BIT
    ensures w % SUFFIX_BIT == low && w / SUFFIX_BIT == high && w / MATCH_BIT == high / 2
  {
    OneFlagApart(w, low, high);
    TwoFlagsApart(w, high % 2 * 0x4000_0000 + low, high / 2);
  }

  lemma OneFlagApart(w: nat, low: nat, high: nat)
    requires w == high * 0x4000_0000 + low && low < 0x4000_0000
    ensures w % 0x4000_0000 == low && w / 0x4000_0000 == high
  {
  }

  lemma TwoFlagsApart(w: nat, low: nat, high: nat)
    requires w == high * 0x8000_0000 + low && low < 0x8000_0000
    ensures w / 0x8000_0000 == high
  {
  }

  /** p_tran: the symbol field of the word is cleared exactly when it held the symbol, the rest stays. */
  lemma XorReads(w: nat, sym: nat, bits: nat)
    requires sym < Pow2(bits) && bits <= 30
    ensures var t, r := Unpack(w, bits), Unpack(Xor(w, sym), bits);
            (r.sym == 0 <==> t.sym == sym) && r == t.(sym := r.sym)
  {
    Pow2Grows(bits, 30);
    XorSplit(w, sym, 30);
    XorSplit(LowBits(w, 30), sym, bits);
    XorZero(LowBits(LowBits(w, 30), bits), sym);
    UnpackBits(w, bits);
    UnpackBits(Xor(w, sym), bits);
  }

  /** Where the string number of a matching state is kept (struct STRASH). */
  datatype Strash = Strash(state: nat, strno: nat)

  /** struct acism: tranv is longer than tran_size, so that a state plus any symbol is in it. */
  datatype Table = Table(tranv: seq<nat>, tranSize: nat, symBits: nat, hashv: seq<Strash>, hashMod: nat)

  function TranAt(tab: Table, i: nat): Tran
    requires i < |tab.tranv|
  {
    Unpack(tab.tranv[i], tab.symBits)
  }

  /** p_tran. */
  function PTran(tab: Table, s: nat, sym: nat): (t: Tran)
    requires s + sym < |tab.tranv| && tab.symBits <= 30 && sym < Pow2(tab.symBits)
    ensures t.sym == 0 <==> TranAt(tab, s + sym).sym == sym
    ensures t == TranAt(tab, s + sym).(sym := t.sym)
  {
    XorReads(tab.tranv[s + sym], sym, tab.symBits);
    Unpack(Xor(tab.tranv[s + sym], sym), tab.symBits)
  }

  /** p_hash, with the product taken modulo 2^32. */
  function HashOf(s: nat, hashMod: nat): (h: nat)
    requires hashMod > 0
    ensures h < hashMod
  {
    (s * 107 % 0x1_0000_0000) % hashMod
  }

  function Hash(tab: Table, s: nat): nat
    requires tab.hashMod > 0
  {
    HashOf(s, tab.hashMod)
  }

  // ---- Encoding an automaton ----------------------------------------------------------------

  /** The numbers given to states: the root's is 0 and no two states share one. */
  ghost predicate Numbered(ps: seq<Str>, base: Str -> nat) {
    && base([]) == 0
    && (forall s, t {:trigger OwnNumber(ps, base, s, t)} :: OwnNumber(ps, base, s, t))
  }

  ghost predicate OwnNumber(ps: seq<Str>, base: Str -> nat, s: Str, t: Str) {
    IsState(ps, s) && IsState(ps, t) && base(s) == base(t) ==> s == t
  }

  /** The entry for symbol c of state s: valid exactly for a child, and then all fields right. */
  ghost predicate ChildEncoded(tab: Table, a: Automaton, base: Str -> nat, s: Str, c: nat) {
    && base(s) + c < |tab.tranv|
    && var t := TranAt(tab, base(s) + c);
    && (t.sym == c <==> IsNode(a.ps, s + [c]))
    && (t.sym == c ==>
          && (t.isMatch <==> s + [c] in a.ps)
          && (t.hasSuffix <==> a.flag(s + [c]))
          && (IsState(a.ps, s + [c]) ==> t.next == base(s + [c]) && t.next < tab.tranSize)
          && (!IsState(a.ps, s + [c]) && s + [c] in a.ps ==> t.next == tab.tranSize + StrNo(a.ps, s + [c])))
  }

  /** The entry for symbol 0 of state s: its back link, or invalid when that is the root. */
  ghost predicate BackEncoded(tab: Table, a: Automaton, base: Str -> nat, s: Str) {
    && base(s) < |tab.tranv|
    && var t := TranAt(tab, base(s));
    && (s == [] ==> t.sym != 0)
    && (s != [] ==> if t.sym == 0 then t.next == base(a.link(s)) else a.link(s) == [])
  }

  /** The linear probe from a matching state's hash meets its string number first. */
  ghost predicate HashEncoded(tab: Table, ps: seq<Str>, base: Str -> nat, s: Str, c: nat) {
    s + [c] in ps && IsState(ps, s + [c]) ==>
      && tab.hashMod > 0
      && HashFinds(tab, base(s) + c, StrNo(ps, s + [c]))
  }

  ghost predicate HashFinds(tab: Table, slot: nat, strno: nat)
    requires tab.hashMod > 0
  {
    exists i: nat :: HashedAt(tab, slot, strno, i)
  }

  ghost predicate HashedAt(tab: Table, slot: nat, strno: nat, i: nat)
    requires tab.hashMod > 0
  {
    && Hash(tab, slot) <= i < |tab.hashv|
    && tab.hashv[i] == Strash(slot, strno)
    && forall j | Hash(tab, slot) <= j < i :: tab.hashv[j].state != slot
  }

  /** The table encodes an automaton over the symbols 1 .. nsyms - 1. */
  ghost predicate Encodes(tab: Table, a: Automaton, nsyms: nat, base: Str -> nat) {
    && Numbered(a.ps, base) && tab.symBits <= 30 && 0 < nsyms <= Pow2(tab.symBits)
    && (forall s: Str {:trigger BackEncoded(tab, a, base, s)} | IsState(a.ps, s) :: BackEncoded(tab, a, base, s))
    && (forall s: Str, c: nat {:trigger ChildEncoded(tab, a, base, s, c)} | IsState(a.ps, s) && 0 < c < nsyms ::
          ChildEncoded(tab, a, base, s, c))
    && (forall s: Str, c: nat {:trigger HashEncoded(tab, a.ps, base, s, c)} | IsState(a.ps, s) && 0 < c < nsyms ::
          HashEncoded(tab, a.ps, base, s, c))
  }
}
