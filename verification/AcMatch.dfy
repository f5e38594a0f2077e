// From byte strings to matches: fill_symv of contrib/aho-corasick/acism_create.c, and a text
// scanned with the table made from a list of strings.
module AcMatch {
  import opened Common
  import opened AcSpec
  import opened AcChain
  import opened AcScan
  import opened AcTable
  import opened AcLookup
  import opened AcBack
  import opened AcCreate
  import AcTrie

  /** How often byte b occurs in a string. */
  ghost function CountIn(p: seq<Byte>, b: Byte): nat {
    if p == [] then 0 else (if p[0] == b then 1 else 0) + CountIn(p[1..], b)
  }

  /** How often byte b occurs in the strings. */
  ghost function Freq(strv: seq<seq<Byte>>, b: Byte): nat {
    if strv == [] then 0 else Freq(strv[..|strv| - 1], b) + CountIn(strv[|strv| - 1], b)
  }

  lemma {:induction false} CountedIfThere(p: seq<Byte>, j: nat)
    requires j < |p|
    ensures CountIn(p, p[j]) > 0
  {
    if j > 0 {
      CountedIfThere(p[1..], j - 1);
    }
  }

  lemma {:induction false} FrequentIfThere(strv: seq<seq<Byte>>, i: nat, j: nat)
    requires i < |strv| && j < |strv[i]|
    ensures Freq(strv, strv[i][j]) > 0
  {
    if i == |strv| - 1 {
      CountedIfThere(strv[i], j);
    } else {
      FrequentIfThere(strv[..|strv| - 1], i, j);
    }
  }

  /** The bytes of one string, counted from its end. */
  method CountString(freq0: seq<nat>, p: seq<Byte>) returns (freq: seq<nat>)
    requires |freq0| == 256
    ensures |freq| == 256 && forall b: Byte :: freq[b] == freq0[b] + CountIn(p, b)
  {
    freq := freq0;
    var j := |p|;
    while j > 0
      invariant 0 <= j <= |p| && |freq| == 256
      invariant forall b: Byte :: freq[b] == freq0[b] + CountIn(p[j..], b)
    {
      j := j - 1;
      assert p[j..][0] == p[j] && p[j..][1..] == p[j + 1..];
      freq := freq[p[j] := freq[p[j]] + 1];
    }
    assert p[0..] == p;
  }

  method CountBytes(strv: seq<seq<Byte>>) returns (freq: seq<nat>)
    ensures |freq| == 256 && forall b: Byte :: freq[b] == Freq(strv, b)
  {
    freq := seq(256, _ => 0);
    for i := 0 to |strv|
      invariant |freq| == 256 && forall b: Byte :: freq[b] == Freq(strv[..i], b)
    {
      freq := CountString(freq, strv[i]);
      assert strv[..i + 1][..i] == strv[..i];
    }
    assert strv[..|strv|] == strv;
  }

  /** The 256 bytes in order of frequency, as the sort leaves them. */
  ghost predicate Ranked(order: seq<Byte>, strv: seq<seq<Byte>>) {
    && |order| == 256
    && (forall i, j | 0 <= i < j < 256 :: order[i] != order[j])
    && (forall b: Byte :: b in order)
    && (forall i, j | 0 <= i < j < 256 :: Freq(strv, order[i]) <= Freq(strv, order[j]))
  }

  /** Bytes in use have a symbol of their own from 1 on, the others 0. */
  ghost predicate Symbolic(symv: seq<nat>, nsyms: nat, strv: seq<seq<Byte>>) {
    && |symv| == 256 && 0 < nsyms <= 257
    && (forall b: Byte :: symv[b] < nsyms && (symv[b] > 0 <==> Freq(strv, b) > 0))
    && (forall a: Byte, b: Byte {:trigger OwnSymbol(symv, a, b)} :: OwnSymbol(symv, a, b))
  }

  ghost predicate OwnSymbol(symv: seq<nat>, a: Byte, b: Byte)
    requires |symv| == 256
  {
    symv[a] == symv[b] > 0 ==> a == b
  }

  /** fill_symv: symbols by decreasing frequency, until the first byte that does not occur. */
  method FillSymv(strv: seq<seq<Byte>>, freq: seq<nat>, order: seq<Byte>) returns (symv: seq<nat>, nsyms: nat)
    requires |freq| == 256 && (forall b: Byte :: freq[b] == Freq(strv, b)) && Ranked(order, strv)
    ensures Symbolic(symv, nsyms, strv)
    ensures forall a: Byte, b: Byte | freq[a] > freq[b] > 0 :: symv[a] < symv[b]
  {
    symv := seq(256, _ => 0);
    nsyms := 0;
    var i := 256;
    while i > 0 && freq[order[i - 1]] > 0
      invariant 0 <= i <= 256 && |symv| == 256 && nsyms == 256 - i
      invariant forall k | i <= k < 256 :: symv[order[k]] == 256 - k && freq[order[k]] > 0
      invariant forall k | 0 <= k < i :: symv[order[k]] == 0
    {
      i := i - 1;
      nsyms := nsyms + 1;
      symv := symv[order[i] := nsyms];
    }
    Assigned(strv, freq, order, symv, i);
    nsyms := nsyms + 1;
  }

  lemma RankOf(order: seq<Byte>, strv: seq<seq<Byte>>, b: Byte) returns (k: nat)
    requires Ranked(order, strv)
    ensures k < 256 && order[k] == b
  {
    assert b in order;
    k :| 0 <= k < 256 && order[k] == b;
  }

  /** From the i-th rank on the bytes occur and are numbered from the top; below they do not occur. */
  lemma Assigned(strv: seq<seq<Byte>>, freq: seq<nat>, order: seq<Byte>, symv: seq<nat>, i: nat)
    requires |freq| == 256 && (forall b: Byte :: freq[b] == Freq(strv, b)) && Ranked(order, strv) && i <= 256
             && |symv| == 256
    requires forall k | i <= k < 256 :: symv[order[k]] == 256 - k && freq[order[k]] > 0
    requires forall k | 0 <= k < i :: symv[order[k]] == 0
    requires i > 0 ==> freq[order[i - 1]] == 0
    ensures Symbolic(symv, 257 - i, strv)
    ensures forall a: Byte, b: Byte | freq[a] > freq[b] > 0 :: symv[a] < symv[b]
  {
    forall b: Byte ensures symv[b] < 257 - i && (symv[b] > 0 <==> Freq(strv, b) > 0) {
      var k := RankOf(order, strv, b);
    }
    forall a: Byte, b: Byte {:trigger OwnSymbol(symv, a, b)} ensures OwnSymbol(symv, a, b) {
      var j := RankOf(order, strv, a);
      var k := RankOf(order, strv, b);
    }
    forall a: Byte, b: Byte | freq[a] > freq[b] > 0 ensures symv[a] < symv[b] {
      var j := RankOf(order, strv, a);
      var k := RankOf(order, strv, b);
      assert j > k;
    }
  }

  /** The strings in symbols. */
  ghost function InSymbols(symv: seq<nat>, p: seq<Byte>): (r: Str)
    requires |symv| == 256
    ensures |r| == |p|
  {
    seq(|p|, i requires 0 <= i < |p| => symv[p[i]])
  }

  ghost function Patterns(symv: seq<nat>, strv: seq<seq<Byte>>): (ps: seq<Str>)
    requires |symv| == 256
    ensures |ps| == |strv|
  {
    seq(|strv|, i requires 0 <= i < |strv| => InSymbols(symv, strv[i]))
  }

  /** The strings mapped to symbols, byte by byte. */
  method MapStrings(symv: seq<nat>, strv: seq<seq<Byte>>) returns (ps: seq<Str>)
    requires |symv| == 256
    ensures ps == Patterns(symv, strv)
  {
    ps := [];
    for i := 0 to |strv|
      invariant |ps| == i && forall k | 0 <= k < i :: ps[k] == InSymbols(symv, strv[k])
    {
      ps := ps + [seq(|strv[i]|, j requires 0 <= j < |strv[i]| => symv[strv[i][j]])];
    }
  }

  lemma PatternsProper(symv: seq<nat>, nsyms: nat, strv: seq<seq<Byte>>)
    requires Symbolic(symv, nsyms, strv)
    ensures Proper(Patterns(symv, strv)) && SymbolsBelow(Patterns(symv, strv), nsyms)
  {
    var ps := Patterns(symv, strv);
    forall i, j | 0 <= i < |ps| && 0 <= j < |ps[i]| ensures 0 < ps[i][j] < nsyms {
      FrequentIfThere(strv, i, j);
    }
  }

  ghost function TotalBytes(strv: seq<seq<Byte>>): nat {
    if strv == [] then 0 else TotalBytes(strv[..|strv| - 1]) + |strv[|strv| - 1]|
  }

  lemma {:induction false} SameTotal(symv: seq<nat>, strv: seq<seq<Byte>>)
    requires |symv| == 256
    ensures AcTrie.TotalLength(Patterns(symv, strv)) == TotalBytes(strv)
  {
    if strv != [] {
      var n := |strv| - 1;
      SameTotal(symv, strv[..n]);
      assert Patterns(symv, strv)[..n] == Patterns(symv, strv[..n]);
    }
  }

  /** With few enough bytes the numbers fit their bits, whatever the number of symbols. */
  lemma SmallEnough(symv: seq<nat>, nsyms: nat, strv: seq<seq<Byte>>)
    requires Symbolic(symv, nsyms, strv) && 257 * (TotalBytes(strv) + 1) + |strv| < 0x20_0000
    ensures var ps := Patterns(symv, strv);
            BitWidth(nsyms * (AcTrie.TotalLength(ps) + 1) + |ps|) + BitWidth(nsyms) <= 30
  {
    SameTotal(symv, strv);
    WidthsFit(nsyms, TotalBytes(strv) + 1, |strv|);
  }

  lemma WidthsFit(nsyms: nat, total: nat, n: nat)
    requires nsyms <= 257 && 257 * total + n < 0x20_0000
    ensures BitWidth(nsyms * total + n) + BitWidth(nsyms) <= 30
  {
    Fewer(nsyms, total);
    BitWidthGrows(nsyms * total + n, 0x1F_FFFF);
    BitWidthGrows(nsyms, 257);
    LargestWidths();
  }

  lemma Fewer(nsyms: nat, total: nat)
    requires nsyms <= 257
    ensures nsyms * total <= 257 * total
  {
  }

  lemma LargestWidths()
    ensures BitWidth(0x1F_FFFF) == 21 && BitWidth(257) == 9
  {
    WidthBySixteen(0x1F_FFFF);
    WidthByFour(31);
    WidthByEight(257);
  }

  predicate EndsWith(t: seq<Byte>, p: seq<Byte>) {
    |p| <= |t| && t[|t| - |p|..] == p
  }

  /** A string matches in symbols exactly where it matches in bytes. */
  lemma SameSuffixes(symv: seq<nat>, nsyms: nat, strv: seq<seq<Byte>>, i: nat, t: seq<Byte>)
    requires Symbolic(symv, nsyms, strv) && i < |strv|
    ensures IsSuffix(InSymbols(symv, strv[i]), InSymbols(symv, t)) <==> EndsWith(t, strv[i])
  {
    var p := strv[i];
    if |p| <= |t| {
      var d := |t| - |p|;
      var tail, sp := InSymbols(symv, t)[d..], InSymbols(symv, p);
      forall j | 0 <= j < |p| ensures tail[j] == sp[j] <==> t[d..][j] == p[j] {
        FrequentIfThere(strv, i, j);
        assert tail[j] == symv[t[d + j]];
        assert OwnSymbol(symv, t[d + j], p[j]);
      }
    }
  }

  lemma SameStrings(symv: seq<nat>, nsyms: nat, strv: seq<seq<Byte>>, i: nat, j: nat)
    requires Symbolic(symv, nsyms, strv) && i < |strv| && j < |strv|
    ensures InSymbols(symv, strv[i]) == InSymbols(symv, strv[j]) <==> strv[i] == strv[j]
  {
    SameSuffixes(symv, nsyms, strv, i, strv[j]);
    var n := |strv[i]|;
    if n == |strv[j]| {
      assert strv[j][0..] == strv[j];
      assert InSymbols(symv, strv[j])[0..] == InSymbols(symv, strv[j]);
    }
  }

  /** The text as the scan sees it. */
  ghost function Folded(alpha: Alphabet, text: seq<Byte>): (r: seq<Byte>)
    requires |alpha.lcMap| == 256 && forall i | 0 <= i < 256 :: alpha.lcMap[i] < 256
    ensures |r| == |text|
  {
    seq(|text|, i requires 0 <= i < |text| => if alpha.caseless then alpha.lcMap[text[i]] else text[i])
  }

  /** A call is due: the string ends at that offset, and no later string equals it. */
  ghost predicate Due(strv: seq<seq<Byte>>, text: seq<Byte>, call: Call) {
    && 1 <= call.end <= |text| && call.strno < |strv|
    && strv[call.strno] != [] && EndsWith(text[..call.end], strv[call.strno])
    && forall k | call.strno < k < |strv| :: strv[k] != strv[call.strno]
  }

  lemma LastOfEqual(symv: seq<nat>, nsyms: nat, strv: seq<seq<Byte>>, i: nat)
    requires Symbolic(symv, nsyms, strv) && i < |strv|
    ensures StrNo(Patterns(symv, strv), Patterns(symv, strv)[i]) == i <==>
            forall k | i < k < |strv| :: strv[k] != strv[i]
  {
    var ps := Patterns(symv, strv);
    forall k | i < k < |strv| ensures ps[k] == ps[i] <==> strv[k] == strv[i] {
      SameStrings(symv, nsyms, strv, k, i);
    }
    var n := StrNo(ps, ps[i]);
    assert ps[n] == ps[i];
  }

  /** Calls due in symbols are those due in bytes. */
  lemma DueIff(alpha: Alphabet, nsyms: nat, strv: seq<seq<Byte>>, text: seq<Byte>, call: Call)
    requires alpha.Valid(nsyms) && Symbolic(alpha.symv, nsyms, strv)
    ensures call in Reports(Patterns(alpha.symv, strv), [], Symbols(alpha, nsyms, text)) <==>
            Due(strv, Folded(alpha, text), call)
  {
    ReportsExact(Patterns(alpha.symv, strv), [], Symbols(alpha, nsyms, text), call);
    OccursIff(alpha, nsyms, strv, text, call);
  }

  lemma OccursIff(alpha: Alphabet, nsyms: nat, strv: seq<seq<Byte>>, text: seq<Byte>, call: Call)
    requires alpha.Valid(nsyms) && Symbolic(alpha.symv, nsyms, strv)
    ensures Occurs(Patterns(alpha.symv, strv), [], Symbols(alpha, nsyms, text), call) <==>
            Due(strv, Folded(alpha, text), call)
  {
    if 1 <= call.end <= |text| && call.strno < |strv| {
      SeenSymbols(alpha, nsyms, text, call.end);
      SameSuffixes(alpha.symv, nsyms, strv, call.strno, Folded(alpha, text)[..call.end]);
      LastOfEqual(alpha.symv, nsyms, strv, call.strno);
    }
  }

  lemma SeenSymbols(alpha: Alphabet, nsyms: nat, text: seq<Byte>, end: nat)
    requires alpha.Valid(nsyms) && end <= |text|
    ensures [] + Symbols(alpha, nsyms, text)[..end] == InSymbols(alpha.symv, Folded(alpha, text)[..end])
  {
  }

  /** Some string begins with p. */
  ghost predicate Begins(strv: seq<seq<Byte>>, p: seq<Byte>) {
    exists m :: 0 <= m < |strv| && p <= strv[m]
  }

  /** Some longer string begins with p. */
  ghost predicate GoesOn(strv: seq<seq<Byte>>, p: seq<Byte>) {
    exists m :: 0 <= m < |strv| && p < strv[m]
  }

  /**
   * Where a string with which no longer one begins occurs inside a string before that one's end, all its proper
   * ends with which some string begins have one byte, and no longer string begins with them.
   */
  ghost predicate Clear(strv: seq<seq<Byte>>) {
    forall i: nat, j: nat, k: nat, r {:trigger ClearIn(strv, i, j, k, r)} :: ClearIn(strv, i, j, k, r)
  }

  ghost predicate ClearIn(strv: seq<seq<Byte>>, i: nat, j: nat, k: nat, r: seq<Byte>) {
    Inside(strv, i, j, k) && EndsWith(strv[i], r) && 0 < |r| < |strv[i]| && Begins(strv, r) ==>
        |r| == 1 && !GoesOn(strv, r)
  }

  ghost predicate Inside(strv: seq<seq<Byte>>, i: nat, j: nat, k: nat) {
    i < |strv| && j < |strv| && k < |strv[j]| && EndsWith(strv[j][..k], strv[i]) && !GoesOn(strv, strv[i])
  }

  /** Equal symbols of a byte that occurs are equal bytes. */
  lemma SameByte(symv: seq<nat>, nsyms: nat, strv: seq<seq<Byte>>, m: nat, j: nat, b: Byte)
    requires Symbolic(symv, nsyms, strv) && m < |strv| && j < |strv[m]|
    ensures symv[b] == symv[strv[m][j]] <==> b == strv[m][j]
  {
    FrequentIfThere(strv, m, j);
    assert OwnSymbol(symv, b, strv[m][j]);
  }

  lemma SamePrefix(symv: seq<nat>, nsyms: nat, strv: seq<seq<Byte>>, p: seq<Byte>, m: nat)
    requires Symbolic(symv, nsyms, strv) && m < |strv|
    ensures InSymbols(symv, p) <= InSymbols(symv, strv[m]) <==> p <= strv[m]
  {
    if |p| <= |strv[m]| {
      forall j | 0 <= j < |p| ensures InSymbols(symv, p)[j] == InSymbols(symv, strv[m])[j] <==> p[j] == strv[m][j] {
        SameByte(symv, nsyms, strv, m, j, p[j]);
      }
      assert InSymbols(symv, p) <= InSymbols(symv, strv[m]) <==>
             forall j | 0 <= j < |p| :: InSymbols(symv, p)[j] == InSymbols(symv, strv[m])[j];
      assert p <= strv[m] <==> forall j | 0 <= j < |p| :: p[j] == strv[m][j];
    }
  }

  lemma NodeIff(symv: seq<nat>, nsyms: nat, strv: seq<seq<Byte>>, p: seq<Byte>)
    requires Symbolic(symv, nsyms, strv)
    ensures IsNode(Patterns(symv, strv), InSymbols(symv, p)) <==> Begins(strv, p)
    ensures p != [] ==> (IsState(Patterns(symv, strv), InSymbols(symv, p)) <==> GoesOn(strv, p))
  {
    var ps := Patterns(symv, strv);
    forall m | 0 <= m < |strv| ensures InSymbols(symv, p) <= ps[m] <==> p <= strv[m] {
      SamePrefix(symv, nsyms, strv, p, m);
    }
    forall m | 0 <= m < |strv| ensures InSymbols(symv, p) < ps[m] <==> p < strv[m] {
    }
  }

  lemma LeafIff(symv: seq<nat>, nsyms: nat, strv: seq<seq<Byte>>, p: seq<Byte>)
    requires Symbolic(symv, nsyms, strv) && p != []
    ensures Leaf(Patterns(symv, strv), InSymbols(symv, p)) <==> Begins(strv, p) && !GoesOn(strv, p)
  {
    NodeIff(symv, nsyms, strv, p);
  }

  /** A string's ends, in bytes and in symbols. */
  lemma SameEnd(symv: seq<nat>, nsyms: nat, strv: seq<seq<Byte>>, i: nat, r: seq<Byte>)
    requires Symbolic(symv, nsyms, strv) && i < |strv| && EndsWith(strv[i], r)
    ensures IsSuffix(InSymbols(symv, r), InSymbols(symv, strv[i]))
  {
    var d := |strv[i]| - |r|;
    assert InSymbols(symv, strv[i])[d..] == InSymbols(symv, strv[i][d..]);
  }

  lemma EndInSymbols(symv: seq<nat>, strv: seq<seq<Byte>>, i: nat, r: Str) returns (rb: seq<Byte>)
    requires |symv| == 256 && i < |strv| && IsSuffix(r, InSymbols(symv, strv[i]))
    ensures r == InSymbols(symv, rb) && EndsWith(strv[i], rb)
  {
    var d := |strv[i]| - |r|;
    rb := strv[i][d..];
    assert InSymbols(symv, strv[i])[d..] == InSymbols(symv, rb);
  }

  /** The condition on byte strings is the condition on the trie. */
  lemma ClearIff(symv: seq<nat>, nsyms: nat, strv: seq<seq<Byte>>)
    requires Symbolic(symv, nsyms, strv)
    ensures Clear(strv) <==> Harmless(Patterns(symv, strv))
  {
    var ps := Patterns(symv, strv);
    if Clear(strv) {
      forall l, s, r {:trigger HarmlessIn(ps, l, s, r)} ensures HarmlessIn(ps, l, s, r) {
        if EndsInside(ps, l, s, r) && 0 < |r| && IsNode(ps, r) {
          ClearHarmless(symv, nsyms, strv, l, s, r);
        }
      }
    }
    if Harmless(ps) {
      forall i: nat, j: nat, k: nat, r {:trigger ClearIn(strv, i, j, k, r)} ensures ClearIn(strv, i, j, k, r) {
        if Inside(strv, i, j, k) && EndsWith(strv[i], r) && 0 < |r| < |strv[i]| && Begins(strv, r) {
          HarmlessClear(symv, nsyms, strv, i, j, k, r);
        }
      }
    }
  }

  lemma HarmlessClear(symv: seq<nat>, nsyms: nat, strv: seq<seq<Byte>>, i: nat, j: nat, k: nat, r: seq<Byte>)
    requires Symbolic(symv, nsyms, strv) && Harmless(Patterns(symv, strv))
    requires Inside(strv, i, j, k) && EndsWith(strv[i], r) && 0 < |r| < |strv[i]| && Begins(strv, r)
    ensures |r| == 1 && !GoesOn(strv, r)
  {
    var ps := Patterns(symv, strv);
    var l, s := ps[i], InSymbols(symv, strv[j][..k]);
    assert strv[i] <= strv[i];
    LeafIff(symv, nsyms, strv, strv[i]);
    assert s == ps[j][..k] < ps[j];
    SameSuffixes(symv, nsyms, strv, i, strv[j][..k]);
    SameEnd(symv, nsyms, strv, i, r);
    LeafIff(symv, nsyms, strv, r);
    NodeIff(symv, nsyms, strv, r);
    assert HarmlessIn(ps, l, s, InSymbols(symv, r));
  }

  lemma ClearHarmless(symv: seq<nat>, nsyms: nat, strv: seq<seq<Byte>>, l: Str, s: Str, r: Str)
    requires Symbolic(symv, nsyms, strv) && Clear(strv)
    requires EndsInside(Patterns(symv, strv), l, s, r) && 0 < |r| && IsNode(Patterns(symv, strv), r)
    ensures |r| == 1 && Leaf(Patterns(symv, strv), r)
  {
    var ps := Patterns(symv, strv);
    LeafIsPattern(ps, l);
    var i :| 0 <= i < |ps| && ps[i] == l;
    var j :| 0 <= j < |ps| && s < ps[j];
    var k := |s|;
    assert s == InSymbols(symv, strv[j][..k]);
    SameSuffixes(symv, nsyms, strv, i, strv[j][..k]);
    LeafIff(symv, nsyms, strv, strv[i]);
    var rb := EndInSymbols(symv, strv, i, r);
    NodeIff(symv, nsyms, strv, rb);
    LeafIff(symv, nsyms, strv, rb);
    assert ClearIn(strv, i, j, k, rb);
  }

  /**
   * A table made from the strings, then a scan that is never told to stop: it does what the automaton built does.
   * Where the strings are clear it calls back exactly for those that occur, once each, by end offset and at one
   * offset longest first.
   */
  method CreateAndScan(strv: seq<seq<Byte>>, order: seq<Byte>, lcMap: seq<nat>, caseless: bool, text: seq<Byte>)
    returns (made: bool, calls: seq<Call>, alpha: Alphabet, ghost nsyms: nat)
    requires Ranked(order, strv)
    requires |lcMap| == 256 && forall i | 0 <= i < 256 :: lcMap[i] < 256
    ensures alpha.lcMap == lcMap && alpha.caseless == caseless && alpha.Valid(nsyms)
            && Symbolic(alpha.symv, nsyms, strv)
    ensures made ==> calls == BuiltCalls(Patterns(alpha.symv, strv), Symbols(alpha, nsyms, text))
    ensures made && Clear(strv) ==> forall call :: call in calls <==> Due(strv, Folded(alpha, text), call)
    ensures made && Clear(strv) ==> forall i, j | 0 <= i < j < |calls| :: InOrder(strv, calls[i], calls[j])
    ensures 257 * (TotalBytes(strv) + 1) + |strv| < 0x20_0000 ==> made
  {
    var freq := CountBytes(strv);
    var symv, n := FillSymv(strv, freq, order);
    nsyms := n;
    alpha := Alphabet(symv, lcMap, caseless);
    var ps := MapStrings(symv, strv);
    PatternsProper(symv, n, strv);
    if 257 * (TotalBytes(strv) + 1) + |strv| < 0x20_0000 {
      SmallEnough(symv, n, strv);
    }
    var r;
    ghost var base;
    r, base := Create(ps, n);
    made, calls := r.Some?, [];
    if made {
      calls := ScanAll(r.value, alpha, text, ps, n, base);
      if Clear(strv) {
        ClearIff(symv, n, strv);
        ClearScan(alpha, n, strv, text);
      }
    }
  }

  method ScanAll(tab: Table, alpha: Alphabet, text: seq<Byte>, ghost ps: seq<Str>, ghost nsyms: nat,
      ghost base: Str -> nat)
    returns (calls: seq<Call>)
    requires Encodes(tab, Built(ps), nsyms, base) && alpha.Valid(nsyms)
    ensures calls == BuiltCalls(ps, Symbols(alpha, nsyms, text))
  {
    BuiltDescends(ps);
    var ret, state;
    ret, calls, state := Lookup(tab, alpha, text, _ => 0, 0, Built(ps), nsyms, base, []);
    NeverStopped(_ => 0, calls, ret);
  }

  /** Of clear strings exactly those that occur are called for, in order. */
  lemma ClearScan(alpha: Alphabet, nsyms: nat, strv: seq<seq<Byte>>, text: seq<Byte>)
    requires alpha.Valid(nsyms) && Symbolic(alpha.symv, nsyms, strv)
    requires Proper(Patterns(alpha.symv, strv)) && Harmless(Patterns(alpha.symv, strv))
    ensures var calls := BuiltCalls(Patterns(alpha.symv, strv), Symbols(alpha, nsyms, text));
            && (forall call :: call in calls <==> Due(strv, Folded(alpha, text), call))
            && (forall i, j | 0 <= i < j < |calls| :: InOrder(strv, calls[i], calls[j]))
  {
    var ps, syms := Patterns(alpha.symv, strv), Symbols(alpha, nsyms, text);
    HarmlessRight(ps);
    BuiltDescends(ps);
    ScanRight(Built(ps), [], syms);
    assert LongestState(ps, []) == [];
    forall call ensures call in Reports(ps, [], syms) <==> Due(strv, Folded(alpha, text), call) {
      DueIff(alpha, nsyms, strv, text, call);
    }
    OrderInBytes(alpha, nsyms, strv, syms);
  }

  /** One call comes before the other. */
  ghost predicate InOrder(strv: seq<seq<Byte>>, a: Call, b: Call) {
    a.end < b.end || (a.end == b.end && a.strno < |strv| && b.strno < |strv| && |strv[a.strno]| > |strv[b.strno]|)
  }

  lemma OrderInBytes(alpha: Alphabet, nsyms: nat, strv: seq<seq<Byte>>, syms: Str)
    requires Symbolic(alpha.symv, nsyms, strv)
    ensures var calls := Reports(Patterns(alpha.symv, strv), [], syms);
            forall i, j | 0 <= i < j < |calls| :: InOrder(strv, calls[i], calls[j])
  {
    var ps := Patterns(alpha.symv, strv);
    var calls := Reports(ps, [], syms);
    ReportsOrdered(ps, [], syms);
    forall i, j | 0 <= i < j < |calls| ensures InOrder(strv, calls[i], calls[j]) {
      assert Before(ps, calls[i], calls[j]);
    }
  }
}
