# rspamd: a Dafny model of its hard core

The project models five pieces of rspamd and proves what they are for.

* **The robin-hood hash table** (`RobinHoodCore`, `RobinHood`, `RobinHoodBulk`). Buckets carry a distance and a
  fingerprint, values lie densely beside them. Every operation keeps the buckets ordered and in bijection with the
  values, and every sequence of operations answers and ends as on a finite map.
* **Grisu2** (`GrisuPowers`, `GrisuDigits`, `Grisu`, `Grisu2`). For every finite non-zero double the digits printed
  denote a number strictly inside the double's rounding interval, so they read back as that double; and up to the
  error of the scaled words they are the nearest of that length and no longer than needed. The accuracy of the table
  of cached powers is proved, not assumed.
* **Aho-Corasick** (`AcSpec` to `AcNeed`). The construction, from byte strings over trie, back links, interleaving and
  hash table to the packed words, is proved to encode one automaton, and the scan to do what that automaton does,
  however the text is cut. Over right links the calls are exactly the occurrences, in order. The links read from the
  table are not right for all strings: a condition on the strings is given under which they are, with strings beyond
  it for which the scan misses an occurrence or reports one that is not there.
* **The constant database** (`CdbFormat` to `CdbRoundTrip`). The buffered writer, adds, replacing puts, the finish and
  all four readers, with the round trip from any puts in any mode to file and back, as an ordered multimap.
* **Services.** The fuzzy storage's TCP session (`FuzzyFrames`, `FuzzyTcp`) over every interleaving of events, its
  update queue over a worker's whole life (`FuzzyUpdates`), and the controller's passwords and throttle
  (`ControllerPassword`, `ControllerThrottle`, `ControllerAuth`) over every history of requests.

Objects that the source updates in place are classes with the source's fields; ghost fields record what went in and
out, and the validity predicates tie the two together. Descriptors, timers, the storage backend, the clock, memory
mapping and key derivation are parameters: what they answer is given with each event, and the theorems hold for every
answer.

Where the code does not do what its comments or its purpose say, the model follows the code, and a lemma shows the
case:

* `src/controller.c:709-713` says that a bucket always decays to zero within the window, so that expiry is never laxer
  than decay. A bucket may hold almost one failure more than the maximum, and then outlives the window
  (`OverfullBucket`, `EmptyAfterWindowIff`). And an entry expires a TTL after its first failure, whatever was counted
  since: then it is dropped with something left (`ExpiryLaxerIff`), and more failures pass than the decay allows
  (`ExpiryExceedsRate`). The rate bound holds within one bucket's life; over several it grows with their number.
* `contrib/cdb/cdb_make.c:94-95` makes room for eight bytes a record where the tables take sixteen
  (`FinishCheckExact`; `EmptiesInGap` gives the numbers of empty records that fall between), and
  `contrib/cdb/cdb_make.c:189-191` is exact only while eight more bytes fit (`AddCheckExact`).
* `contrib/cdb/cdb_find.c:126` is exact only for keys no longer than the file (`KeyCheckExact`); in a file that is no
  database a longer key can pass it and be compared with bytes outside the file (`ShortFileMisleads`,
  `ComparesOutside`). `contrib/cdb/cdb_make.c:429` wraps around in the same way (`LengthsPassIff`, `WalkStays`).
* `contrib/aho-corasick/acism_create.c:208-249` links a state to a leaf when the leaf is its longest suffix in the
  trie, and the table stores such a link as one to the root. A leaf's own link is its suffix node's parent, so the
  walk may go on in a place that is no suffix at all (`LinkToNoSuffix`). `MissedCall` and `FalseCall` show what a scan
  then does; `HarmlessLeaf` is a case where nothing goes wrong.
* `contrib/fpconv/fpconv.c:81` takes the doubles below a power of two to be twice as dense, which they are not below
  the smallest normal one: there the lower end is not half way to the next double (`LowerMidway`).
* `src/fuzzy_storage.c:317-319` lets the answer to an older batch end the last sync, exactly if there is one
  (`FinalSync`, `Life`, `LastSyncCutShort`).
* `src/controller.c:334-374` trusts its two cached passwords: they never change an answer exactly if no two passwords
  verify one hash that matters (`TransparentIff`).

`dfyconfig.toml` lists the files for `dafny verify dfyconfig.toml`.

## Model

| member | source | states |
|---|---|---|
| `RobinHoodCore.PathCarries` | contrib/ankerl/unordered_dense.h:906-916 | in a well-ordered array every bucket between an entry's home and its place is at or above the entry's own word |
| `RobinHoodCore.CarriedPathEnds` | contrib/ankerl/unordered_dense.h:906-916 | with an empty bucket somewhere, a probe that is carried never comes round to its home again |
| `RobinHoodCore.StoredPathEnds` | contrib/ankerl/unordered_dense.h:1616-1621 | a stored entry's own path from home to its bucket never wraps |
| `RobinHoodCore.NothingBeyond` | contrib/ankerl/unordered_dense.h:1143-1155 | early exit is right: below the probe's word, no entry with this home and fingerprint lies at or after that bucket |
| `RobinHoodCore.StaysBelow` | contrib/ankerl/unordered_dense.h:1128-1141 | the exit the two unrolled probes skip is still taken afterwards, since later buckets stay below the probe's word |
| `RobinHoodCore.SomeBucketEmpty` | contrib/ankerl/unordered_dense.h:918-925 | fewer values than buckets leave a bucket empty, so every probe and shift ends |
| `RobinHoodCore.ShiftUpStep` | contrib/ankerl/unordered_dense.h:918-925 | one displacement keeps the order and every other value's bucket, and the displaced bucket may go on from the next place |
| `RobinHoodCore.ShiftUpEnd` | contrib/ankerl/unordered_dense.h:918-925 | at an empty bucket the shift ends with every value indexed |
| `RobinHoodCore.ShiftBackStep` | contrib/ankerl/unordered_dense.h:1016-1022 | pulling the next entry one step back keeps the order and all other entries |
| `RobinHoodCore.ShiftBackEnd` | contrib/ankerl/unordered_dense.h:1023-1023 | before an empty bucket or an entry at home the hole can be emptied |
| `RobinHoodCore.Renumber` | contrib/ankerl/unordered_dense.h:1027-1037 | giving the last value's bucket the freed index keeps buckets and values in bijection |
| `RobinHoodCore.WordsFitField` | contrib/ankerl/unordered_dense.h:861-868 | a stored distance never exceeds the number of values, so below 2^24 - 2 values every word and its successor fit the 32-bit field |
| `RobinHood.Table.constructor` | contrib/ankerl/unordered_dense.h:1176-1189 | a new table is well formed and empty |
| `RobinHood.Table.AllocateBuckets` | contrib/ankerl/unordered_dense.h:970-986 | a cleared bucket array indexes no value |
| `RobinHood.Table.NextWhileLess` | contrib/ankerl/unordered_dense.h:906-916 | stops at the first bucket not above the key's word, all earlier ones being above, with the right word |
| `RobinHood.Table.PlaceAndShiftUp` | contrib/ankerl/unordered_dense.h:918-925 | the placed value and all values shifted are indexed again, in order |
| `RobinHood.Table.FillBuckets` | contrib/ankerl/unordered_dense.h:988-998 | every value of the vector is indexed |
| `RobinHood.Table.IncreaseSize` | contrib/ankerl/unordered_dense.h:1000-1010 | doubling the buckets indexes every value again in a well-formed table |
| `RobinHood.Table.CalcShiftsForSize` | contrib/ankerl/unordered_dense.h:931-937 | the smallest array whose capacity holds the size |
| `RobinHood.Table.Probe` | contrib/ankerl/unordered_dense.h:1094-1115 | finds the key among the indexed values, or the place where its entry belongs, and that no value has the key |
| `RobinHood.Table.PlaceElement` | contrib/ankerl/unordered_dense.h:1076-1091 | the new entry is the last value and the map is the old one with it |
| `RobinHood.Table.TryEmplace` | contrib/ankerl/unordered_dense.h:1094-1115 | inserts exactly when the key is new; the returned index holds the key; the map changes by that one pair or not at all |
| `RobinHood.Table.Emplace` | contrib/ankerl/unordered_dense.h:1537-1566 | as try_emplace, though the entry is appended before the probe and popped when the key is there |
| `RobinHood.Table.Find` | contrib/ankerl/unordered_dense.h:1118-1155 | answers the index of the key's entry, or end() exactly when the abstract map lacks the key |
| `RobinHood.Table.FindUnrolled` | contrib/ankerl/unordered_dense.h:1118-1141 | the two unrolled probes without an exit agree with the search from home |
| `RobinHood.Table.FindFrom` | contrib/ankerl/unordered_dense.h:1143-1154 | the rolled loop ends, with the entry or at the early exit |
| `RobinHood.Table.DoErase` | contrib/ankerl/unordered_dense.h:1013-1043 | exactly one entry goes, the last value takes its index, the map loses exactly that key |
| `RobinHood.Table.ShiftBack` | contrib/ankerl/unordered_dense.h:1016-1023 | afterwards the removed value has no bucket and every other value still has its own |
| `RobinHood.Table.MoveLast` | contrib/ankerl/unordered_dense.h:1027-1040 | the last value moves to the freed index and its bucket says so |
| `RobinHood.Table.FindMoved` | contrib/ankerl/unordered_dense.h:1032-1039 | the search for the moved value, which compares indices only, ends on that value's own occupied bucket |
| `RobinHood.Table.EraseKey` | contrib/ankerl/unordered_dense.h:1046-1064 | the map minus the key, and 1 or 0 as the key was there |
| `RobinHood.Table.LocateKey` | contrib/ankerl/unordered_dense.h:1051-1061 | the key's occupied bucket, or that no value has the key |
| `RobinHood.Table.EraseAt` | contrib/ankerl/unordered_dense.h:1616-1628 | erasing by iterator removes exactly that entry, swapping in the last one |
| `RobinHood.Table.BucketOf` | contrib/ankerl/unordered_dense.h:1617-1623 | the index-only search meets value i's bucket before any empty one |
| `RobinHood.Table.Rehash` | contrib/ankerl/unordered_dense.h:1848-1858 | map and values unchanged, table well formed, capacity at least the count |
| `RobinHood.Table.Replace` | contrib/ankerl/unordered_dense.h:1419-1469 | the values are the container with the last one put in the place of each whose key was seen before; a container with distinct keys is taken as it is; no key is lost |
| `RobinHood.Table.IndexOrDrop` | contrib/ankerl/unordered_dense.h:1437-1468 | a value is indexed, or dropped because an earlier one has its key; no key of the container is lost |
| `RobinHoodBulk.EraseRange` | contrib/ankerl/unordered_dense.h:1656-1678 | exactly the entries in [first, last) go, despite the swapping with the last entries |
| `RobinHoodBulk.EraseIf` | contrib/ankerl/unordered_dense.h:2011-2027 | the map keeps exactly the pairs that fail the predicate; the count is how many went |
| `RobinHoodBulk.Step` | contrib/ankerl/unordered_dense.h:905-1155 | each operation, on keys, on iterators or on the whole container, answers and changes the table as on a finite map |
| `RobinHoodBulk.Run` | contrib/ankerl/unordered_dense.h:905-1155 | every operation of every sequence of try_emplace, emplace, find, erase by key, by iterator and by range, erase_if, rehash and replace answers and leaves the table as on a finite map |
| `RobinHoodBulk.KeyedRun` | contrib/ankerl/unordered_dense.h:905-1155 | a run of operations on keys is the run on a finite map, answers included, whatever the order of the vector |
| `RobinHood.Table.IndexLast` | contrib/ankerl/unordered_dense.h:1082-1087 | the appended entry is indexed, or the table grows and indexes everything |
| `RobinHood.Table.RemoveEntry` | contrib/ankerl/unordered_dense.h:1013-1043 | buckets and values are in bijection again with the entry swapped out |
| `RobinHood.Table.PullBack` | contrib/ankerl/unordered_dense.h:1018-1022 | one turn of the backward shift |
| `RobinHood.Table.IndexUnique` | contrib/ankerl/unordered_dense.h:1434-1468 | the loop of replace ends with unique keys, all of the container's |
| `RobinHood.Table.DropDuplicate` | contrib/ankerl/unordered_dense.h:1459-1463 | a duplicate goes and no key is lost |
| `RobinHood.Table.ClearForSize` | contrib/ankerl/unordered_dense.h:1423-1429 | an empty index with room for the container |
| `RobinHoodBulk.EraseFront` | contrib/ankerl/unordered_dense.h:1664-1668 | the range's front holds the last entries in reverse |
| `RobinHoodBulk.PopBack` | contrib/ankerl/unordered_dense.h:1671-1675 | the rest of the range is popped off the end |
| `RobinHood.Table.Displace` | contrib/ankerl/unordered_dense.h:918-925 | one displacement: the bucket in hand is put down, the displaced one taken up, nearer to the empty bucket |
| `RobinHood.DedupedKeeps` | contrib/ankerl/unordered_dense.h:1437-1468 | entries stay where they are as long as their keys are distinct |
| `GrisuPowers.CachedPowersAccurate` | contrib/fpconv/powers.h:16-61 | each of the 87 table entries is a normalised 64-bit word within half a unit of the exact power of ten |
| `Grisu.PowersTenGraded` | contrib/fpconv/powers.h:16-61 | the exponents of neighbouring entries differ by 26 or 27, from the first to the last |
| `Grisu.FindCachedPow10` | contrib/fpconv/powers.h:63-87 | the entry brings the exponent into [-60, -32], whatever rounding (up to 1) does to the product of the first guess |
| `Grisu.WalkPowers` | contrib/fpconv/powers.h:70-86 | from any entry of the table the walk stays inside, never turns back and ends |
| `Grisu.BuildFpDecodes` | contrib/fpconv/fpconv.c:36-53 | decoding yields exactly the finite binary64 magnitudes |
| `Grisu.InsideReadsBack` | contrib/fpconv/fpconv.c:66-89 | a number strictly inside a double's rounding interval is nearer to it than to any other double of either sign |
| `Grisu.NeighbourAbove` | contrib/fpconv/fpconv.c:66-89 | the next larger double is at least twice as far away as the interval's upper end |
| `Grisu.NeighbourBelow` | contrib/fpconv/fpconv.c:66-89 | the next smaller double is at least twice as far away as the lower end, also at a power of two |
| `Grisu.Normalize` | contrib/fpconv/fpconv.c:55-64 | the same value with the top bit set |
| `Grisu.GetNormalizedBoundaries` | contrib/fpconv/fpconv.c:66-89 | both boundaries, on one exponent, have exactly the values of the interval's ends, and fit 64 bits |
| `Grisu.WordGaps` | contrib/fpconv/fpconv.c:66-89 | the boundary words are at least 512 below and 1024 above the normalised word |
| `Grisu.MultiplyRounds` | contrib/fpconv/fpconv.c:91-109 | for all 64-bit words the result is the exact product rounded to nearest, and no step wraps around |
| `Grisu.GapSurvives` | contrib/fpconv/fpconv.c:91-109 | words 2g apart keep products at least g apart |
| `GrisuDigits.RoundDigit` | contrib/fpconv/fpconv.c:111-118 | the last digit stays in '0'..'9', the number stays in the interval, no other admissible number of steps is closer, nor a smaller one as close, and no sum leaves 64 bits |
| `GrisuDigits.IntegralDigits` | contrib/fpconv/fpconv.c:131-153 | digits of the integral part: nearest number in the interval on stopping, exact digits so far otherwise; every product, also div << -one.exp, stays below 2^64 |
| `GrisuDigits.FractionalDigits` | contrib/fpconv/fpconv.c:155-177 | the second loop ends within 19 turns and 18 characters, ten times the rest, the scaled width and wfrac * unit stay below 2^64, and the number is the nearest in the interval |
| `GrisuDigits.RoomForDigit` | contrib/fpconv/fpconv.c:155-177 | not having stopped bounds the number of digits written by 17 |
| `GrisuDigits.StopsInTime` | contrib/fpconv/fpconv.c:155-177 | the unit pointer stays inside the table of tens |
| `GrisuDigits.GenerateDigits` | contrib/fpconv/fpconv.c:120-178 | between 1 and 18 characters, all digits, forming the number nearest to w, the larger of two, among those of its exponent inside the interval, none of a larger exponent being there, without a word leaving 64 bits |
| `Grisu2.ProductError` | contrib/fpconv/fpconv.c:180-201 | a word scaled by a power that is accurate to half a unit is less than one unit from the exact product |
| `Grisu2.Grisu2` | contrib/fpconv/fpconv.c:180-201 | for every finite non-zero double the digits times 10^K lie strictly inside its rounding interval and read back as it; no number of that exponent is nearer to it by two units of the scaled word, and none with fewer digits fits, in the interval narrowed by two such units, of which the interval holds more than 766 |
| `Grisu2.FpconvGrisu2` | contrib/fpconv/fpconv.c:203-222 | the sign, the codes for zero, infinity and NaN exactly where they apply, and otherwise digits that read back, are as near as the scaled words tell, and no longer than needed |
| `Grisu.NormalizedLower` | contrib/fpconv/fpconv.c:81-87 | the lower boundary on the upper one's exponent |
| `GrisuDigits.RoundIntegral` | contrib/fpconv/fpconv.c:147-150 | rounding in units of div << -one.exp, a word below 2^64 |
| `GrisuDigits.DigitsFor` | contrib/fpconv/fpconv.c:120-178 | both loops for any unit between 2^32 and 2^60 |
| `Grisu.NormalizedUpper` | contrib/fpconv/fpconv.c:66-80 | the upper boundary with its top bit set |
| `Grisu2.ScaleAndGenerate` | contrib/fpconv/fpconv.c:188-200 | the digits from the scaled, narrowed words are inside the rounding interval; among all decimals of their exponent in the narrowed interval none is nearer to the double by two units of the product's error, and none of a larger exponent is there |
| `Grisu2.DigitsBetween` | contrib/fpconv/fpconv.c:120-178 | the decimal printed lies between the two words, none of its exponent there is nearer to w, and none of a larger exponent is above the lower word |
| `Grisu2.PrintFp` | contrib/fpconv/fpconv.c:180-201 | for every decoded double the digits lie strictly inside its interval, short and near |
| `GrisuDigits.WriteDigit` | contrib/fpconv/fpconv.c:139-141 | a digit is appended unless it would be a leading zero |
| `GrisuDigits.RoundWritten` | contrib/fpconv/fpconv.c:147-151 | after rounding the number written is the nearest one in the interval |
| `GrisuDigits.IntegralDigit` | contrib/fpconv/fpconv.c:136-152 | one turn of the first loop |
| `GrisuDigits.FractionalDigit` | contrib/fpconv/fpconv.c:159-176 | one turn of the second loop, the width scaled along and below 2^64 |
| `GrisuDigits.DigitsOfFraction` | contrib/fpconv/fpconv.c:155-177 | the second loop gives the nearest number where the first ran out |
| `Grisu.UpperMidway` | contrib/fpconv/fpconv.c:66-79 | the upper end is half way to a double, unless this is the largest |
| `Grisu.LowerMidway` | contrib/fpconv/fpconv.c:81-89 | the lower end is half way to the next smaller double if and only if this is not the smallest normal one |
| `GrisuDigits.NoneAbove` | contrib/fpconv/fpconv.c:147-153 | where the rest above a number of units is as wide as the interval, no number of units is in it |
| `Grisu2.WholePrinted` | contrib/fpconv/fpconv.c:131-153 | digits of the integral part are the nearest decimal of their exponent between the words, none of a larger exponent being there |
| `Grisu2.TenthsPrinted` | contrib/fpconv/fpconv.c:155-177 | the same for digits that reach into the fractional part |
| `Grisu2.PointNearer` | contrib/fpconv/fpconv.c:187-200 | what is nearer to the scaled word is nearer to the double, but for twice the error of the product |
| `Grisu2.WordsAround` | contrib/fpconv/fpconv.c:187-196 | the three scaled words are less than a unit from what they stand for, and the narrowed ends at least 766 units apart |
| `Grisu2.PrintedUnscaled` | contrib/fpconv/fpconv.c:187-200 | a decimal printed from the narrowed scaled words is strictly inside the rounding interval, short and near |
| `AcSpec.ReportsExact` | contrib/aho-corasick/acism.c:43-127 | a call is due exactly for the (pattern, end offset) pairs that occur in the text |
| `AcSpec.ReportsOrdered` | contrib/aho-corasick/acism.c:43-127 | due calls come by end offset, at one offset longest pattern first, none twice |
| `AcSpec.ReportsSplit` | contrib/aho-corasick/acism.c:43-127 | the calls due for a text in two parts are those for the whole |
| `AcLookup.FollowBack` | contrib/aho-corasick/acism.c:65-66 | the back entry of a state gives the number of its link, and an invalid entry the root |
| `AcLookup.FindTransition` | contrib/aho-corasick/acism.c:60-67 | ends where the walk over the links ends: at the first state with a transition for the symbol, or at the root |
| `AcLookup.CollectMatches` | contrib/aho-corasick/acism.c:78-122 | calls for every pattern on the chain, longest first, and the new state; told to stop at a pattern, the state is the new one if the transition led to it or if it is longer than that pattern, otherwise the root |
| `AcLookup.ProbeHash` | contrib/aho-corasick/acism.c:101-103 | the linear probe meets the entry of the slot before any other with its state |
| `AcLookup.ScanSymbol` | contrib/aho-corasick/acism.c:53-122 | one byte does what one step of the automaton does |
| `AcLookup.Lookup` | contrib/aho-corasick/acism.c:43-127 | on a table that encodes any automaton: the calls are a prefix of the automaton's, all of them unless the callback stops the scan, and the state written back is the automaton's; after a stop it is that of the text read, if that was known before the pattern reported, otherwise the root |
| `AcLookup.LookupInTwo` | contrib/aho-corasick/acism.c:43-127 | over right links two scans carrying the state make the calls of one scan of the joined text |
| `AcLookup.HasTransition` | contrib/aho-corasick/acism.c:64-64 | valid exactly when the child exists; state 0 exactly at the root |
| `AcLookup.StringNumber` | contrib/aho-corasick/acism.c:96-104 | the number of the pattern at this slot, from the leaf's entry or the hash table |
| `AcLookup.NoteState` | contrib/aho-corasick/acism.c:110-111 | the first transition to a state on the chain gives the new state |
| `AcLookup.Report` | contrib/aho-corasick/acism.c:95-108 | the callback exactly for a pattern, with its number and end |
| `AcLookup.TakeTransition` | contrib/aho-corasick/acism.c:72-122 | one valid transition: the calls and the next state of the automaton |
| `AcLookup.LookAt` | contrib/aho-corasick/acism.c:81-121 | one turn of the loop over the chain: the callback for a pattern, the state noted, and whether all is settled |
| `AcLookup.LookupRight` | contrib/aho-corasick/acism.c:43-127 | over right links the calls are exactly those due for the text, a prefix of them when told to stop, and the state written back is the longest state suffix |
| `AcScan.StepRight` | contrib/aho-corasick/acism.c:53-122 | over right links one symbol leads from the longest state suffix to the next one and reports exactly the patterns ending there |
| `AcScan.ScanRight` | contrib/aho-corasick/acism.c:43-127 | over right links a scan from any carried state reports what is due |
| `AcFault.MissedCall` | contrib/aho-corasick/acism.c:43-127 | for abcd, bc, ce a scan of abce makes no call for ce, which occurs |
| `AcFault.FalseCall` | contrib/aho-corasick/acism.c:43-127 | for xabcde, abc, bc, bdz a scan of xabcdz calls back for bdz, which does not occur |
| `AcMatch.ScanAll` | contrib/aho-corasick/acism.c:43-127 | a scan never told to stop makes exactly the calls of the automaton built |
| `AcMatch.ClearScan` | contrib/aho-corasick/acism.c:43-127 | for clear strings those are exactly the occurrences in the bytes, in order |
| `AcTable.PackRoundTrip` | contrib/aho-corasick/_acism.h:105-112 | fields that fit are read back from the 32-bit word, flags included |
| `AcTable.XorReads` | contrib/aho-corasick/_acism.h:105-112 | the exclusive or clears the symbol field exactly when it holds the symbol asked for and leaves all other fields |
| `AcTable.PTran` | contrib/aho-corasick/_acism.h:105-106 | the word read by exclusive or: valid exactly when the entry has the symbol, the rest as stored |
| `AcTrie.Tree.constructor` | contrib/aho-corasick/acism_create.c:84-84 | the zeroed node array is the tree of no strings |
| `AcTrie.Tree.Down` | contrib/aho-corasick/acism_create.c:174-194 | one step down makes the missing child in symbol order, or finds it |
| `AcTrie.Tree.AddString` | contrib/aho-corasick/acism_create.c:171-203 | the nodes are exactly the prefixes, siblings in symbol order, the string's node marked with the last equal string's number |
| `AcTrie.Tree.Create` | contrib/aho-corasick/acism_create.c:165-206 | the tree of all strings, empty ones too, within one node per character and the root |
| `AcBack.SuffixNodeLongest` | contrib/aho-corasick/acism_create.c:209-249 | over right shorter links the walk of add_backlinks finds the longest node among the proper suffixes |
| `AcBack.BacklinksRightIff` | contrib/aho-corasick/acism_create.c:209-249 | the links that add_backlinks sets are the longest state suffixes if and only if no leaf of the trie is a suffix of a state |
| `AcLinks.FindChild` | contrib/aho-corasick/acism_create.c:372-377 | the child with the symbol, or none exactly when there is none |
| `AcLinks.SearchChain` | contrib/aho-corasick/acism_create.c:235-239 | the walk along the links stops at the first node with such a child |
| `AcLinks.LinkKid` | contrib/aho-corasick/acism_create.c:221-244 | one child's link and suffix flag as specified, nothing else changed |
| `AcLinks.LinkLevel` | contrib/aho-corasick/acism_create.c:217-248 | all children of a level are linked and the next level's sources are queued once each |
| `AcLinks.AddBacklinks` | contrib/aho-corasick/acism_create.c:208-249 | every node gets its link and flag; the tree is unchanged otherwise |
| `AcPack.KidsFree` | contrib/aho-corasick/acism_create.c:289-295 | true exactly when no child's slot is in use |
| `AcPack.FindPos` | contrib/aho-corasick/acism_create.c:280-296 | the first position from the start that fits, at most one past the last slot in use |
| `AcPack.MarkKids` | contrib/aho-corasick/acism_create.c:299-304 | exactly the children's slots are marked and the children queued once each |
| `AcPack.PlaceNode` | contrib/aho-corasick/acism_create.c:270-316 | the state gets a free base, nothing overlaps afterwards, at most nsyms new places are used |
| `AcInterleave.PackLevel` | contrib/aho-corasick/acism_create.c:265-320 | all states of a level are placed and the next level is queued |
| `AcInterleave.Interleave` | contrib/aho-corasick/acism_create.c:251-324 | all states and only they get a base; bases are distinct, slots are disjoint, back entries are free; the size is at most nsyms per node |
| `AcHash.Insert` | contrib/aho-corasick/acism_create.c:345-350 | an entry goes to the first free cell from its hash, there always is one, and every stored entry stays findable |
| `AcHash.Trim` | contrib/aho-corasick/acism_create.c:120-124 | the entries end inside the table, and trimming cuts off none |
| `AcFillHash.CountMarked` | contrib/aho-corasick/acism_create.c:93-96 | nhash counts the pattern nodes that have children |
| `AcFillHash.Offer` | contrib/aho-corasick/acism_create.c:332-343 | the first pass stores an entry in its own cell or keeps it for the second |
| `AcFillHash.Settle` | contrib/aho-corasick/acism_create.c:345-350 | the second pass stores the rest |
| `AcFillHash.FillHashv` | contrib/aho-corasick/acism_create.c:326-353 | each matching interior node is found by the linear probe from its slot's hash in the trimmed table, which the allocated cells hold |
| `AcFill.SetChild` | contrib/aho-corasick/acism_create.c:56-63 | the word of one transition, at its slot only |
| `AcFill.FillTranv` | contrib/aho-corasick/acism_create.c:355-370 | the words of a node and of everything below it are right and no other word changes |
| `AcCreate.Bitwid` | contrib/aho-corasick/acism_create.c:36-45 | the number of binary digits, for every 32-bit number |
| `AcCreate.CheckSuffices` | contrib/aho-corasick/acism_create.c:100-101 | the width check guarantees that all fields fit |
| `AcCreate.BuildTree` | contrib/aho-corasick/acism_create.c:83-99 | tree, links and bases together, and the size of the transition array bounded |
| `AcCreate.Create` | contrib/aho-corasick/acism_create.c:77-137 | the words encode what was built: decoding (state, symbol) is valid exactly for existing children and yields their state or string number, flags and links; refused only when the numbers do not fit their bits |
| `AcMatch.FillSymv` | contrib/aho-corasick/acism_create.c:142-163 | each occurring byte has a symbol of its own, more frequent ones smaller symbols, other bytes none |
| `AcMatch.ClearIff` | contrib/aho-corasick/acism_create.c:142-163 | the condition on the byte strings holds exactly when the one on the trie does |
| `AcMatch.CreateAndScan` | contrib/aho-corasick/acism_create.c:77-137 | table and scan together do what the automaton built does, for all strings; for clear strings they call back exactly for those occurring in the text, in order, once each; small string sets are never refused |
| `AcBack.TableLinksRightIff` | contrib/aho-corasick/acism_create.c:209-249 | the links read from the table are right exactly when each state is linked to its longest state suffix, or to a leaf where that is the root |
| `AcBack.TableLinksIff` | contrib/aho-corasick/acism_create.c:209-249 | they are right only if no leaf inside a state has a state as proper suffix, and that is enough unless such a leaf ends in another of two or more symbols |
| `AcBack.LinksRightIfHarmless` | contrib/aho-corasick/acism_create.c:209-249 | under the condition on the trie every link set serves |
| `AcBack.SuffixFlagServes` | contrib/aho-corasick/acism_create.c:209-249 | and every node with a pattern as proper suffix has the suffix flag |
| `AcBack.HarmlessRight` | contrib/aho-corasick/acism_create.c:209-249 | and the automaton built is right |
| `AcFault.LeafInsideBreaksLink` | contrib/aho-corasick/acism_create.c:209-249 | for abcd, bc, ce the state abc is linked to the leaf bc, read as the root, and not to the state c |
| `AcFault.LinkToNoSuffix` | contrib/aho-corasick/acism_create.c:237-244 | for xabcde, abc, bc, bdz the state xabcd is linked to bd, which is no suffix of it |
| `AcFault.HarmlessLeaf` | contrib/aho-corasick/acism_create.c:209-249 | for abcd, bc the condition holds though the leaf bc is inside the state abc |
| `AcCreate.AllEncoded` | contrib/aho-corasick/acism_create.c:103-125 | the finished words encode the automaton built, links to leaves read as the root |
| `AcCreate.MakeTree` | contrib/aho-corasick/acism_create.c:84-91 | tree and links of the patterns |
| `AcCreate.BuildTranv` | contrib/aho-corasick/acism_create.c:111-116 | every word of the array is the one its node asks for, and 0 where none does |
| `AcCreate.BuildHashv` | contrib/aho-corasick/acism_create.c:103-125 | when a pattern has proper extensions, all such patterns are in the table |
| `AcCreate.BuildTable` | contrib/aho-corasick/acism_create.c:103-125 | every transition, link and string number reads back from the finished tree |
| `AcFill.SetBack` | contrib/aho-corasick/acism_create.c:360-361 | the word of a back link, at the base only |
| `AcFill.FillKid` | contrib/aho-corasick/acism_create.c:363-369 | a child's word and all words below it are right, no other word changes |
| `AcFillHash.OfferKids` | contrib/aho-corasick/acism_create.c:336-342 | all matching interior children of one node were offered |
| `AcInterleave.PackNext` | contrib/aho-corasick/acism_create.c:267-317 | a leaf is passed over, a state placed, and the level's bookkeeping kept |
| `AcInterleave.PlaceState` | contrib/aho-corasick/acism_create.c:268-316 | a link to the root is dropped and the state gets its base, nothing overlapping |
| `AcLinks.LinkKids` | contrib/aho-corasick/acism_create.c:220-244 | all children of a node are linked and those with children queued |
| `AcLinks.RootKids` | contrib/aho-corasick/acism_create.c:213-215 | exactly the children of the root are queued |
| `AcPack.PickStart` | contrib/aho-corasick/acism_create.c:272-278 | the highest mark among those of the children's symbols |
| `AcPack.GrowIfNeeded` | contrib/aho-corasick/acism_create.c:309-316 | room for another state, the new half free |
| `AcTrie.Along` | contrib/aho-corasick/acism_create.c:183-185 | the last sibling whose symbol is not above the one looked for |
| `AcTrie.Tree.AppendChild` | contrib/aho-corasick/acism_create.c:196-200 | one more node as first child, the rest of the tree unchanged |
| `AcTrie.Tree.InsertAfter` | contrib/aho-corasick/acism_create.c:187-193 | one more node between siblings, in symbol order |
| `AcTrie.Tree.WalkDown` | contrib/aho-corasick/acism_create.c:174-194 | follows the nodes of the string and makes at most one sibling a step |
| `AcTrie.Tree.ExtendAll` | contrib/aho-corasick/acism_create.c:196-200 | nodes for the rest of the string |
| `AcTrie.Tree.Mark` | contrib/aho-corasick/acism_create.c:202-202 | the last node carries the string's number, and the tree is that of one string more |
| `AcMatch.CountBytes` | contrib/aho-corasick/acism_create.c:148-151 | each byte's frequency over all strings |
| `AcNeed.ExactNeeds` | contrib/aho-corasick/acism_create.c:209-249 | if all calls on all texts are exact, no state is linked past a suffix of it that goes on where the state does not |
| `AcNeed.CallMissed` | contrib/aho-corasick/acism_create.c:209-249 | where one is, some text has an occurrence that is not called for |
| `AcNeed.MissedLink` | contrib/aho-corasick/acism_create.c:209-249 | such a state is not linked to its longest state suffix |
| `AcNeed.HarmlessExact` | contrib/aho-corasick/acism_create.c:209-249 | harmless leaves make all calls on all texts exact |
| `AcCreate.CheckWidths` | contrib/aho-corasick/acism_create.c:100-101 | the check passes only if all numbers fit their bits, and for all small sets |
| `CdbFormat.UnpackPack` | contrib/cdb/cdb_make.c:10-18 | a 32-bit number reads back from its four bytes |
| `CdbFormat.PackUnpack` | contrib/cdb/cdb_make.c:408-416 | four bytes are those of the number they read as |
| `CdbFormat.RecordFields` | contrib/cdb/cdb_make.c:182-212 | lengths, key and value are found at a record's position |
| `CdbWrite.Maker.constructor` | contrib/cdb/cdb_make.c:20-27 | 2048 zero bytes are pending and no record is listed |
| `CdbWrite.Maker.FullWrite` | contrib/cdb/cdb_make.c:29-42 | the bytes replace those of the file from its position on |
| `CdbWrite.Maker.Flush` | contrib/cdb/cdb_make.c:44-54 | nothing is pending and file plus buffer are what they were |
| `CdbWrite.Maker.Write` | contrib/cdb/cdb_make.c:56-82 | file plus buffer are everything written before followed by the new bytes, and dpos is their length |
| `CdbIndex.AddRec` | contrib/cdb/cdb_make.c:192-204 | the list gains the record at its end, over blocks that never exceed their size |
| `CdbMake.AddCheckExact` | contrib/cdb/cdb_make.c:189-191 | the size check is exact if and only if eight more bytes fit |
| `CdbMake.Add` | contrib/cdb/cdb_make.c:182-212 | one more record at the end, indexed in its list, or refused and unchanged when it would not end below 2^32 |
| `CdbIndex.FixupList` | contrib/cdb/cdb_make.c:226-232 | positions behind the removed record move down by its length, over all blocks, though the loop stops early |
| `CdbIndex.MovedIsRemoved` | contrib/cdb/cdb_make.c:220-234 | the adjusted list without the record's own element is the list for the remaining records |
| `CdbRemove.Match` | contrib/cdb/cdb_make.c:285-315 | 0 for another key, the record's length for the key's, 1 when the lengths cannot be |
| `CdbRemove.SlideDown` | contrib/cdb/cdb_make.c:245-257 | the bytes behind the record are found again at its position |
| `CdbRemove.FixupRpos` | contrib/cdb/cdb_make.c:220-234 | all 256 lists are adjusted |
| `CdbRemove.RemoveRecord` | contrib/cdb/cdb_make.c:236-261 | the data is that of the remaining records and every list points to them |
| `CdbPut.WriteBlank` | contrib/cdb/cdb_make.c:269-281 | the record is overwritten with a length and zeros, chunk by chunk |
| `CdbPut.ZerofillRecord` | contrib/cdb/cdb_make.c:263-282 | the record is a keyless one of the same size, or cut off when it was the last |
| `CdbPut.RemovedAll` | contrib/cdb/cdb_make.c:317-362 | after removal no live record has the key and all others are there |
| `CdbReplace.FindRec` | contrib/cdb/cdb_make.c:317-362 | 1 exactly when the key is stored; removing and zero filling modes take out every record of it and no other, others change nothing |
| `CdbReplace.Put` | contrib/cdb/cdb_make.c:375-406 | a put that succeeds changes the records of its own key as the mode says (a replacing one leaves the new record alone) and of no other key; the answer and the refusal for want of room are as in the source; the database stays valid |
| `CdbReplace.OthersKept` | contrib/cdb/cdb_make.c:375-406 | the records of every other key are the same, in order |
| `CdbTable.TabledOneMore` | contrib/cdb/cdb_make.c:131-137 | a record put into the first free slot from its start leaves everyone findable and in order |
| `CdbTable.Seat` | contrib/cdb/cdb_make.c:131-137 | the probe for a free slot ends |
| `CdbTable.FreeEnds` | contrib/cdb/cdb_make.c:131-137 | no record with this hash lies behind a free slot on its path |
| `CdbFinish.Reorder` | contrib/cdb/cdb_make.c:97-113 | the block list turned around is the list in insertion order, and counted |
| `CdbFinish.FillTable` | contrib/cdb/cdb_make.c:128-137 | the table of one list seats all its records |
| `CdbFinish.FinishCheckExact` | contrib/cdb/cdb_make.c:94-95 | the size check refuses exactly the files that do not fit if and only if the file is not in the gap between eight and sixteen bytes a record |
| `CdbFinish.WriteTable` | contrib/cdb/cdb_make.c:123-146 | one table, written behind the data and found there |
| `CdbFinish.WriteToc` | contrib/cdb/cdb_make.c:150-157 | the contents at the start of the file name each table and its size |
| `CdbFinish.Finish` | contrib/cdb/cdb_make.c:84-160 | the file is a database: contents, data in order, a table for each list; or -1 exactly when the check refuses |
| `CdbSeek.SeqNext` | contrib/cdb/cdb_make.c:418-437 | the record at a position and where the next one is, 0 at the end of the data; in any file the numbers read, moving on unless a length exceeds the data |
| `CdbSeek.AllRecords` | contrib/cdb/cdb_make.c:418-437 | every record once, in the order of the file, then the end |
| `CdbSeek.CompareKey` | contrib/cdb/cdb_make.c:500-513 | 1 exactly when the bytes at the file's position are the key |
| `CdbSeek.Seek` | contrib/cdb/cdb_make.c:462-524 | the file is left at the first value added for the key, or 0 when there is none; in any file 1 leaves it behind a header and the key |
| `CdbRoundTrip.BuildAndList` | contrib/cdb/cdb_make.c:418-437 | a database built by adds gives all pairs back in insertion order |
| `CdbFinish.RoomTaken` | contrib/cdb/cdb_make.c:94-95 | every record in the index has taken eight bytes or more, which bounds what the check can meet |
| `CdbFinish.EmptiesInGap` | contrib/cdb/cdb_make.c:94-95 | exactly for these numbers of empty records, 200 million being one, the check passes and the tables do not fit |
| `CdbReplace.PutMeaning` | contrib/cdb/cdb_make.c:375-406 | what is left by the search, with the new record, has the records the mode promises for every key |
| `CdbReplace.Append` | contrib/cdb/cdb_make.c:182-212 | the record at the end, the end of the data and the count moved by it; or nothing |
| `CdbRoundTrip.PutAll` | contrib/cdb/cdb_make.c:375-406 | all puts in turn: the live records are the ordered multimap of them, and the answers are its answers |
| `CdbRoundTrip.BuildByPuts` | contrib/cdb/cdb_make.c:20-160 | start, puts and finish give a database of exactly that multimap |
| `CdbSeek.LengthsPassIff` | contrib/cdb/cdb_make.c:429-430 | no record inside the data is refused, and one that passes is inside exactly when neither length exceeds the end of the data |
| `CdbSeek.WalkStays` | contrib/cdb/cdb_make.c:429-435 | a value length of 2^32 - 8 passes and leads back to the same record |
| `CdbSeek.ReadRecord` | contrib/cdb/cdb_make.c:418-437 | in any file: 0 exactly at the end, -1 only for a record that leaves the data, else the record as its numbers say |
| `CdbFinish.PackSlots` | contrib/cdb/cdb_make.c:138-141 | the packed bytes read back as the slots |
| `CdbFinish.SeatBlock` | contrib/cdb/cdb_make.c:131-137 | one block's records are seated in order |
| `CdbFinish.CountLists` | contrib/cdb/cdb_make.c:97-113 | all lists in insertion order and their table sizes |
| `CdbFinish.WriteTables` | contrib/cdb/cdb_make.c:122-146 | all tables behind the data, where hpos says |
| `CdbIndex.FixupBlock` | contrib/cdb/cdb_make.c:227-231 | one block moved, up to the first record that is not behind |
| `CdbMake.NoteRecord` | contrib/cdb/cdb_make.c:192-205 | the record's hash and position join its list |
| `CdbRemove.SameBytes` | contrib/cdb/cdb_make.c:303-313 | true exactly when the key bytes at the position are the key |
| `CdbRemove.MatchEntry` | contrib/cdb/cdb_make.c:285-315 | on a stored record: its length exactly when the key is the one asked for, else 0 |
| `CdbRemove.CutRecord` | contrib/cdb/cdb_make.c:241-258 | the data is that of the remaining records |
| `CdbReplace.TakeOut` | contrib/cdb/cdb_make.c:344-357 | a match is removed and the database stays valid |
| `CdbReplace.FillOut` | contrib/cdb/cdb_make.c:348-357 | a match is zero filled and the database stays valid |
| `CdbReplace.Examine` | contrib/cdb/cdb_make.c:333-357 | a record with the hash is acted on exactly when its key matches |
| `CdbReplace.VisitBlock` | contrib/cdb/cdb_make.c:326-358 | one block searched from its newest record |
| `CdbRoundTrip.AddAll` | contrib/cdb/cdb_make.c:214-218 | all pairs are stored in order |
| `CdbRoundTrip.Build` | contrib/cdb/cdb_make.c:20-160 | start, adds and finish give a database of exactly the pairs |
| `CdbSeek.SeekRecord` | contrib/cdb/cdb_make.c:495-515 | the file is left at the value when the key is the one asked for |
| `CdbSeek.SeekSlot` | contrib/cdb/cdb_make.c:485-516 | one slot of the search through the file |
| `CdbPut.BlankReads` | contrib/cdb/cdb_make.c:263-282 | a record filled with zeros reads as one without a key, of the same size, and everything behind its lengths is zero |
| `CdbFormat.PackDigits` | contrib/cdb/cdb_make.c:10-18 | the four bytes are the digits of the number to the base 256, the lowest first |
| `CdbTable.SlotOfHash` | contrib/cdb/cdb_make.c:131-137 | the low byte of a hash names its list and the rest, modulo the length, its first slot |
| `CdbFormat.CdbHash` | contrib/cdb/cdb_init.c:10-19 | the loop computes the hash, which starts as 5381 and takes each byte as the machine words do |
| `CdbFind.Cdb.constructor` | contrib/cdb/cdb_init.c:26-78 | an opened database knows where its data ends, between the contents and the end of the file whatever is written there |
| `CdbFind.Cdb.Get` | contrib/cdb/cdb_init.c:97-105 | the bytes, exactly when they are inside the file |
| `CdbFormat.HashStart` | contrib/cdb/cdb_init.c:10-19 | the empty key has the hash 5381 |
| `CdbFormat.HashSteps` | contrib/cdb/cdb_init.c:10-19 | on 32-bit words the next byte goes by exclusive or into the hash plus the hash shifted left by five |
| `CdbFormat.HashIsWord` | contrib/cdb/cdb_init.c:10-19 | the hash as a number is that word, and back |
| `CdbFormat.HashOfA` | contrib/cdb/cdb_init.c:10-19 | the hash of "a" is 177604 |
| `CdbLookup.SeenAll` | contrib/cdb/cdb_find.c:10-76 | at a free slot or after the whole table no record of the key is left |
| `CdbLookup.SeenNext` | contrib/cdb/cdb_find.c:108-147 | the record found is the next one of the key in insertion order |
| `CdbFind.Cdb.TryRecord` | contrib/cdb/cdb_find.c:51-66 | the key's record, another one, or lengths that cannot be; a comparison outside the file exactly when the check wraps around and lets it pass |
| `CdbFind.Cdb.OpenTable` | contrib/cdb/cdb_find.c:26-44 | -1, 0 or 1 exactly as the table lies outside the file, is empty, or lies inside |
| `CdbFind.Cdb.Find` | contrib/cdb/cdb_find.c:10-76 | the first record added with the key, or 0 when there is none; on any other file a hit is inside the file and has the key |
| `CdbScan.FindInit` | contrib/cdb/cdb_find.c:78-106 | a search begins exactly when the key's table is there and inside the file; 0 only when the key has no record |
| `CdbScan.Finder.constructor` | contrib/cdb/cdb_find.c:78-106 | the search begins at the key's first slot |
| `CdbScan.Finder.Next` | contrib/cdb/cdb_find.c:108-147 | the key's next record in insertion order, 0 after the last; on any file only a key longer than the file is compared with bytes outside of it |
| `CdbScan.AllValues` | contrib/cdb/cdb_find.c:78-147 | all values of a key in insertion order, then a stop |
| `CdbRoundTrip.BuildAndFind` | contrib/cdb/cdb_find.c:10-76 | after any adds and finish, the first value given to the key, or 0 for a key never given |
| `CdbRoundTrip.BuildAndFindAll` | contrib/cdb/cdb_find.c:78-147 | after any adds and finish, all values given to the key in order |
| `CdbFind.Cdb.LookAtSlot` | contrib/cdb/cdb_find.c:47-66 | free, another one's or the key's slot |
| `CdbFind.KeyCheckExact` | contrib/cdb/cdb_find.c:126-126 | the length check is exact at every position if and only if the key is no longer than the limit |
| `CdbScan.Finder.LookOn` | contrib/cdb/cdb_find.c:114-143 | one slot of the search: compared outside the file exactly where the wrapped check lets the record pass |
| `CdbScan.ComparesOutside` | contrib/cdb/cdb_find.c:108-147 | a key whose first slot leads to such a record is compared with bytes outside the file |
| `CdbScan.ShortFileMisleads` | contrib/cdb/cdb_find.c:108-147 | there is such a file of 2064 bytes for every key of 3000 |
| `CdbRoundTrip.PutsAndFinds` | contrib/cdb/cdb_find.c:10-147 | after any puts in any modes and a finish every put has answered, and find and findnext answer, as an ordered multimap does |
| `CdbFind.Cdb.Step` | contrib/cdb/cdb_find.c:47-66 | in a database the slot shows the key's next record, or that none is here |
| `CdbFind.Cdb.Search` | contrib/cdb/cdb_find.c:46-74 | the loop of cdb_find ends with the first record or none |
| `CdbScan.ValuesFrom` | contrib/cdb/cdb_find.c:108-147 | the loop over cdb_findnext gives all values in order |
| `FuzzyFrames.ParseMore` | src/fuzzy_storage.c:2454-2599 | parsing more of a stream continues where the first part left off; after a bad length nothing changes |
| `FuzzyFrames.ParseBounds` | src/fuzzy_storage.c:2454-2599 | what is left of a good stream is less than a frame, and each frame took at least three bytes |
| `FuzzyTcp.Session.constructor` | src/fuzzy_storage.c:2637-2709 | a new session is open with one reference, reading armed |
| `FuzzyTcp.Session.UpdateEvents` | src/fuzzy_storage.c:410-449 | reading is armed exactly below 1024 in flight plus queued, writing exactly with replies queued; a closed session is left alone |
| `FuzzyTcp.Session.Release` | src/fuzzy_storage.c:2128-2166 | the last reference destroys the session, once |
| `FuzzyTcp.Session.Close` | src/fuzzy_storage.c:2357-2386 | closing twice is closing once; descriptor, watchers and timer go, commands in flight keep the session |
| `FuzzyTcp.Session.Enqueue` | src/fuzzy_storage.c:451-524 | a reply is queued whole behind the others and writing is armed; after close it is dropped |
| `FuzzyTcp.Session.EndCommand` | src/fuzzy_storage.c:2086-2126 | a command's reference goes and reading resumes when there is room |
| `FuzzyTcp.Session.Deliver` | src/fuzzy_storage.c:2543-2580 | the frame is delivered once; an answered one gets exactly its reply, framed and queued last, a dropped one none, and only one left running stays in flight |
| `FuzzyTcp.Session.TakeLength` | src/fuzzy_storage.c:2490-2529 | the two length bytes, however they were split, or a length outside 1..8192 |
| `FuzzyTcp.Session.TakeFrames` | src/fuzzy_storage.c:2487-2586 | takes all complete frames and stops where more bytes are needed or the length is bad; the replies added are those of the answered frames, in order, and the commands in flight those left running |
| `FuzzyTcp.Session.Absorb` | src/fuzzy_storage.c:2454-2607 | a read delivers exactly the frames it completes, each with its own outcome, and keeps the rest; the buffer is never full afterwards |
| `FuzzyTcp.Session.OnRead` | src/fuzzy_storage.c:2454-2607 | EOF and errors close the session; bytes read have the effect of their frames' outcomes |
| `FuzzyTcp.Session.WriteReply` | src/fuzzy_storage.c:2399-2441 | what the descriptor takes of the first reply is written next; the reply goes exactly when it is written whole, and only an error is fatal |
| `FuzzyTcp.Session.WriteReplies` | src/fuzzy_storage.c:2613-2633 | exactly the bytes the descriptor takes are written, reply after reply until one is not taken whole; fatal exactly if an error is reached |
| `FuzzyTcp.Session.OnIo` | src/fuzzy_storage.c:2443-2635 | the session stays valid through one readiness event, whatever the descriptor answers; frames read have their outcomes' effect, what was written stays, and without a read exactly what the descriptor takes is written |
| `FuzzyTcp.Session.OnTimeout` | src/fuzzy_storage.c:2388-2397 | a timeout closes the session |
| `FuzzyTcp.Session.OnComplete` | src/fuzzy_storage.c:2086-2126 | an asynchronous end of a command, also after close |
| `FuzzyTcp.Session.Run` | src/fuzzy_storage.c:2443-2635 | over every interleaving of reads, writes, completions, timeouts, EOF and errors each event that can happen has its effect, in order, and the invariant holds: references are one if open plus live commands, destroyed at most once, backlog at most 1023 plus one buffer of frames, at most one reply for each frame, wake-ups kept |
| `FuzzyTcp.BurstBound` | src/fuzzy_storage.c:2454-2599 | one read completes at most 2731 frames |
| `FuzzyTcp.FramesAreParsed` | src/fuzzy_storage.c:2454-2599 | the frames delivered and the bad-length close equal a one-shot parse of all bytes received |
| `FuzzyTcp.CuttingDoesNotMatter` | src/fuzzy_storage.c:2454-2599 | the same bytes give the same frames and verdict however they were cut into reads |
| `FuzzyTcp.MoreBytesMoreFrames` | src/fuzzy_storage.c:2454-2599 | bytes read later only add frames |
| `FuzzyTcp.NoLostWakeup` | src/fuzzy_storage.c:410-449 | an open session with nothing armed has at least 1024 commands in flight |
| `FuzzyTcp.DestroyedLast` | src/fuzzy_storage.c:2128-2166 | destroyed exactly when closed with no command left, and then without descriptor or watcher |
| `FuzzyUpdates.Updater.constructor` | src/fuzzy_storage.c:288-398 | an empty queue, everything accounted for |
| `FuzzyUpdates.Updater.Accept` | src/fuzzy_storage.c:1323-1323 | an accepted update is pending |
| `FuzzyUpdates.Updater.Process` | src/fuzzy_storage.c:371-398 | all pending updates become one batch; an empty last sync ends the loop |
| `FuzzyUpdates.Updater.Succeed` | src/fuzzy_storage.c:306-321 | the batch is committed, the counter reset, the loop ended for the last sync or an ending worker |
| `FuzzyUpdates.Updater.Fail` | src/fuzzy_storage.c:322-362 | given up, queued again, sent again at once, or lost after the queue was freed |
| `FuzzyUpdates.Updater.Answer` | src/fuzzy_storage.c:288-368 | each update stays in exactly one place; a batch is given up exactly on the (updates_maxfail+1)-th failing answer in a row |
| `FuzzyUpdates.Updater.Sync` | src/fuzzy_storage.c:2711-2723 | what is pending goes out as one ordinary batch |
| `FuzzyUpdates.Updater.Free` | src/fuzzy_storage.c:3731-3734 | what is still pending is lost, nothing else |
| `FuzzyUpdates.Updater.Run` | src/fuzzy_storage.c:288-398 | over every run the events have their effects in order, up to the one that breaks the loop; each accepted update is committed, given up, pending or in one batch in flight, nothing is given up without more failures in a row than allowed, and the loop only stops for a terminating worker |
| `FuzzyUpdates.Updater.Turn` | src/fuzzy_storage.c:288-398 | one event has its effect; while the last sync goes on, each failed attempt raised the counter and was followed by one more |
| `FuzzyUpdates.Updater.FinalSync` | src/fuzzy_storage.c:3711-3722 | everything pending goes out in a final batch, then the events have their effects in order; whatever happens meanwhile, at most updates_maxfail+1 attempts are made; until the loop ends a final batch is in flight; answers alone can cut it short, a final batch unanswered, if and only if something was pending and another batch unanswered |
| `FuzzyUpdates.RunningWorkerTriesOnceMore` | src/fuzzy_storage.c:315-320 | without the test of the worker's state another batch's success would allow updates_maxfail+2 attempts |
| `FuzzyTcp.Session.TakeSecond` | src/fuzzy_storage.c:2502-2529 | the second length byte, or a length that is bad |
| `FuzzyTcp.Session.TakeFrame` | src/fuzzy_storage.c:2543-2581 | the complete frame is delivered with its outcome's effect and the state is back at the start |
| `FuzzyTcp.Session.NextFrame` | src/fuzzy_storage.c:2487-2586 | one turn: a frame with its outcome's effect, a wait for more bytes, or a bad length |
| `FuzzyTcp.Session.KeepRest` | src/fuzzy_storage.c:2588-2606 | the unused bytes stay and reading stops when the backlog is full |
| `FuzzyTcp.Session.BreakOff` | src/fuzzy_storage.c:2516-2522 | a bad length closes the session with the frames before it delivered |
| `FuzzyTcp.Session.OnWrite` | src/fuzzy_storage.c:2609-2634 | what the descriptor takes is written; the session is closed exactly if it fails; otherwise the watchers are right afterwards |
| `FuzzyTcp.Session.Handle` | src/fuzzy_storage.c:2443-2635 | one event keeps the invariant and has its own effect on frames, replies, running commands, bytes written and closing; nothing is received after close |
| `FuzzyTcp.Session.AfterWriting` | src/fuzzy_storage.c:2619-2633 | a fatal write closes the session, an empty queue stops writing |
| `FuzzyTcp.WrittenInOrder` | src/fuzzy_storage.c:2399-2441 | in every run, after destruction too, the bytes written are a prefix of the replies, at most one for each frame |
| `FuzzyUpdates.Updater.Live` | src/fuzzy_storage.c:288-398 | one event has its effect: an update is pending, a sync leaves nothing pending, an answer with its flag commits, gives up or puts back its batch, a signal ends the worker or its loop |
| `FuzzyUpdates.Updater.StartLastSync` | src/fuzzy_storage.c:3711-3716 | everything pending goes out in a final batch and another loop begins |
| `FuzzyUpdates.Life` | src/fuzzy_storage.c:3701-3734 | over every whole life (main loop, last sync, queue freed) no update vanishes, none is given up without more failures in a row than allowed, at most updates_maxfail+1 last attempts are made; whatever the answers, nothing is lost or left in flight if and only if no batch was unanswered when the main loop was broken |
| `FuzzyUpdates.LastSyncCutShort` | src/fuzzy_storage.c:317-320 | an instance: the answer to an older batch ends the last sync with the last updates unanswered |
| `FuzzyUpdates.Updater.Discard` | src/fuzzy_storage.c:323-335 | the batch is given up and the counter reset |
| `FuzzyUpdates.Updater.Retry` | src/fuzzy_storage.c:337-353 | the updates are pending again, or out again at once on the last sync |
| `FuzzyUpdates.Updater.Lose` | src/fuzzy_storage.c:355-361 | after the queue was freed the updates are lost |
| `FuzzyTcp.Session.DeliverAll` | src/fuzzy_storage.c:2487-2586 | all frames in the buffer are delivered, each with its own outcome, at most a bufferful more commands |
| `FuzzyTcp.Session.Settle` | src/fuzzy_storage.c:2516-2606 | a bad length closes the session, otherwise the rest is kept |
| `FuzzyTcp.Session.FrameIfThere` | src/fuzzy_storage.c:2531-2586 | the frame, with its outcome's effect, exactly when all of it is there |
| `FuzzyTcp.Framed` | src/fuzzy_storage.c:511-515 | a reply goes out behind its length, low byte first, which is how the length is read |
| `FuzzyTcp.Session.HangUp` | src/fuzzy_storage.c:2466-2476 | the session ends, valid |
| `FuzzyTcp.Session.Advance` | src/fuzzy_storage.c:2425-2440 | the bytes taken are written next; the reply goes exactly when nothing is left of it |
| `FuzzyTcp.Session.Process` | src/fuzzy_storage.c:2484-2607 | the frames in the buffer are delivered with their outcomes and the rest kept, or the session ends at a bad length |
| `FuzzyTcp.Session.ReadAndWrite` | src/fuzzy_storage.c:2453-2634 | a read has its effect and writing follows unless it ended the session or was in vain |
| `FuzzyTcp.Session.WriteIfAsked` | src/fuzzy_storage.c:2609-2634 | exactly what the descriptor takes is written, and the session closed exactly if it fails |
| `FuzzyUpdates.LivesOn` | src/fuzzy_storage.c:288-398 | before the last sync no batch is a final one, and what stops the loop has told the worker to terminate |
| `FuzzyUpdates.EndsOn` | src/fuzzy_storage.c:288-398 | one event of the last sync: the attempts stay within their bound and a final batch in flight, until it ends |
| `FuzzyUpdates.LoopEnds` | src/fuzzy_storage.c:3711-3722 | after answers alone nothing is left if no batch was unanswered before; otherwise one success ends it with a final batch in flight |
| `FuzzyUpdates.AfterAllArrivals` | src/fuzzy_storage.c:1323-1323 | over any events the updates accepted are those that arrived, in order |
| `FuzzyUpdates.Updater.LastLoop` | src/fuzzy_storage.c:3717-3722 | the events of the last sync have their effects in order until one breaks the loop |
| `FuzzyUpdates.Finish` | src/fuzzy_storage.c:3701-3734 | the last sync and the queue freed: what became of every update |
| `ControllerPassword.IsEncrypted` | src/controller.c:239-281 | the key derivation named by $id, exactly for ids 1 and 2 |
| `ControllerPassword.GetStr` | src/controller.c:283-313 | the longest alphanumeric run at the offset, or none |
| `ControllerPassword.CheckUncached` | src/controller.c:376-426 | true exactly when salt and key decode to the right lengths and the derived key is the stored one (`MatchesParts`, `EncryptedMatches`) |
| `ControllerAuth.Controller.constructor` | src/controller.c:160-175 | empty caches |
| `ControllerAuth.Controller.CheckEncrypted` | src/controller.c:316-460 | the answer and the caches are those of the specified check, whatever the caches hold and the hashes verify |
| `ControllerAuth.Controller.CheckPrivileged` | src/controller.c:847-888 | strictly the enable password, or the only one there is, as the cached check says |
| `ControllerAuth.Controller.CheckNormal` | src/controller.c:889-973 | verdict, read-only flag and caches of the decision with caches, the same-hash shortcut included |
| `ControllerAuth.Controller.CheckPassword` | src/controller.c:738-990 | verdict, read-only flag, caches and buckets are those of the decision with caches, for every request and state |
| `ControllerAuth.Controller.Serve` | src/controller.c:738-990 | every history of requests gets the verdicts of the decision with caches; at every time the unauthorized answers to each address obey the throttle's bounds, and whoever is refused for failing too often had as many of them, counted by one bucket, as are allowed |
| `ControllerThrottle.DecayInSteps` | src/controller.c:636-653 | draining in steps is draining at once |
| `ControllerThrottle.FullDrainsInWindow` | src/controller.c:632-653 | a full bucket is empty exactly after the window |
| `ControllerThrottle.EmptyAfterWindowIff` | src/controller.c:710-711 | the comment's first half: after a window a bucket has decayed to zero exactly when it was not over full |
| `ControllerThrottle.OverfullBucket` | src/controller.c:710-711 | two failures that pass can leave a bucket that is still there, and not empty, after the window |
| `ControllerThrottle.Throttle.constructor` | src/controller.c:4664-4677 | a window that is not positive is replaced by the default |
| `ControllerThrottle.Throttle.IsAllowed` | src/controller.c:662-682 | true exactly when the throttle is off, the source has no bucket that is not expired, or its drained penalty is below the maximum; refused only after max failures that its latest bucket counted, and, the clock not going back, what leaked away besides; an expired bucket goes |
| `ControllerThrottle.Throttle.Failure` | src/controller.c:687-719 | one failure more on the drained penalty, or a new bucket where there was none or it had expired, others evicted from a full table; every bound on the failures so far is kept |
| `ControllerThrottle.Throttle.Success` | src/controller.c:726-735 | the source's bucket and record of failures go, no other one |
| `ControllerThrottle.RateBound` | src/controller.c:636-735 | n failures from t1 to tn that one bucket counted, the last let pass, are fewer than max + 1 + max (tn - t1) / window |
| `ControllerThrottle.IdleWindowForgives` | src/controller.c:632-682 | after an idle window less than one failure is on record and the source is allowed |
| `ControllerAuth.Controller.CheckOne` | src/controller.c:861-872 | plain passwords by comparison, encrypted ones by the cached check, for all passwords and caches |
| `ControllerAuth.Controller.CheckUntrusted` | src/controller.c:790-990 | verdict, caches, buckets and record of failures of a request from anywhere else |
| `ControllerAuth.UnauthorizedRate` | src/controller.c:636-735 | at any time n unauthorized answers to one address from t1 to tn that one bucket counted, no password of it accepted between, are fewer than max + 1 + max (tn - t1) / window |
| `ControllerAuth.Controller.Answered` | src/controller.c:839-980 | a given password gets the verdict, and leaves the caches, of the decision with caches |
| `ControllerAuth.TransparentIff` | src/controller.c:316-460 | the caches of a new controller never change an answer, over all histories with these passwords, if and only if no two of them verify the enable hash, nor two the other hash where one verifies the enable hash |
| `ControllerAuth.Transparent` | src/controller.c:316-460 | under that condition every history from any right caches gets the answers of the uncached check |
| `ControllerAuth.SecondEnableShutOut` | src/controller.c:335-343 | of two passwords that verify the enable hash the first one used shuts the other out |
| `ControllerAuth.SecondNormalShutOut` | src/controller.c:345-374 | with an enable password cached, of two that verify the other hash the first one used shuts the other out |
| `ControllerAuth.UnauthorizedOverLives` | src/controller.c:636-735 | over several buckets max + 1 more are allowed for each; with a clock that never goes back and nothing evicted there are two, and one more for each TTL that went by |
| `ControllerAuth.BooksTell` | src/controller.c:738-990 | a request changes table and record of failures as its verdict says |
| `ControllerThrottle.RateBoundOverLives` | src/controller.c:636-735 | failures that several buckets counted, all let pass, are fewer than max + 1 for each bucket and what leaks in the time between |
| `ControllerThrottle.ExpiryLaxerIff` | src/controller.c:709-713 | the comment's second half: dropping an expired bucket is laxer than its decay exactly when less than its penalty has leaked since the last failure |
| `ControllerThrottle.ExpiryExceedsRate` | src/controller.c:709-718 | with two failures a minute allowed, one at 0, two at 60 and two at 61 seconds all pass: four in one second |
| `ControllerPassword.MatchesParts` | src/controller.c:376-426 | of a hash with a known id, a salt and a key: right are exactly the passwords from which the derivation makes the decoded key out of the decoded salt, both of the length the id asks for |
| `ControllerPassword.OnlyParts` | src/controller.c:394-431 | a hash without a salt or without a key lets nobody in |
| `ControllerPassword.EncryptedMatches` | src/controller.c:376-426 | with $id$salt$key configured, decoding to 20 and 32 bytes, right are exactly the passwords from which id's derivation makes the key |
| `ControllerPassword.KdfNamed` | src/controller.c:239-281 | the id is the whole number behind the dollar sign, and 1 and 2 are the only ones known |
| `ControllerPassword.PlainMatches` | src/controller.c:861-869 | without a dollar sign and an id a password is right exactly if it is the one configured |
| `ControllerAuth.Grants` | src/controller.c:847-973 | write access, and any privileged command, is for exactly the enable password, or the only one there is; ordinary commands for both; q1 and q2 for nothing |
| `ControllerAuth.Ungated` | src/controller.c:763-828 | only a trusted peer, a throttled one, and one that gives no password where none is set are answered before a password is looked at |
| `ControllerAuth.FreshAnswers` | src/controller.c:738-990 | a new controller with only $id$salt$key configured lets in exactly the passwords, q1 and q2 apart, that derive the key |
| `ControllerAuth.RefusedAfterMax` | src/controller.c:662-682 | a new controller answers 429 to an address only after max unauthorized answers to it that one bucket counted, no password of it accepted between |
| `ControllerThrottle.NoCreditBackwards` | src/controller.c:641-647 | a clock that went back drains nothing |
| `ControllerThrottle.Earned` | src/controller.c:662-682 | whoever is refused has as many failures on record, counted by one bucket, as are allowed |
| `ControllerThrottle.RefusedIff` | src/controller.c:636-682 | while the clock goes forward an address is refused exactly if its bucket is there and, from some failure on that it counted, there were max and what leaked away since |
| `ControllerThrottle.FewLives` | src/libutil/hash.c:563-592 | buckets of one address began more than a TTL apart, so in a given time there are few of them |
| `ControllerThrottle.LivesBound` | src/libutil/hash.c:563-592 | the bound over any stretch, by the number of buckets that counted it |
| `ControllerThrottle.LookedKept` | src/libutil/hash.c:563-592 | dropping an expired entry keeps what is known of all failures |

## Left out

- RobinHood.Table.TryEmplace: requires that no more than 1717986944 entries, what 2^31 buckets hold at the default load factor, are asked for; the error thrown when the array cannot grow is not modelled.
- RobinHood.Table.Emplace: the same bound as TryEmplace.
- RobinHood.Table.PlaceElement: the same bound.
- RobinHood.Table.IndexLast: the same bound.
- RobinHood.Table.IncreaseSize: the same bound; beyond it the source throws.
- RobinHood.Table.CalcShiftsForSize: the same bound.
- RobinHood.Table.ClearForSize: the same bound.
- RobinHood.Table.Rehash: the same bound.
- RobinHood.Table.Replace: the same bound.
- RobinHoodBulk.Step: the same bound; operations on iterators that are out of range, which the source does not allow, are passed over.
- RobinHoodBulk.Run: the same bound, over all entries the sequence may add.
- RobinHoodCore.WordsFitField: distances are unbounded numbers in the model; this lemma says when they fit the field, and nothing is said about tables where they would not.
- AcBack.HarmlessRight: the condition is sufficient for a right scan. For right calls `ExactNeeds` gives a necessary one; an exact one is not given.
- AcBack.TableLinksIff: the condition on states is necessary for right links, and the whole one exact unless a leaf inside a state ends in another leaf of two or more symbols; for such strings the exact condition is not given.
- AcMatch.CreateAndScan: exactness is stated for clear strings; without that the calls are those of the automaton built.
- AcMatch.FillSymv: the result of qsort is a parameter, any order by increasing frequency.
- AcCreate.Create: a sum of sizes of 2^32 and more, which wraps around in the source, is refused; patterns are mapped to symbols before the tree is built, not while; the transition array has nsyms zero words behind its end, which the source may read past its own.
- CdbWrite.Maker.FullWrite: one write takes all bytes; the loop over partial and interrupted writes is collapsed.
- CdbMake.Add: requires room for eight more bytes below 2^32; `AddCheckExact` shows what the check does without.
- CdbReplace.Put: requires the same room as Add.
- CdbReplace.Append: requires the same room as Add.
- CdbFinish.Finish: requires that the tables fit in 32 bits or the size test refuses; `FinishCheckExact` shows the gap.
- CdbRemove.RemoveRecord: reads, writes and seeks succeed; the file is not truncated, as in the source, so bytes of removed records may remain behind the end.
- CdbFind.Cdb.constructor: files of 4 GiB and more, of which the source maps the size modulo 2^32, are excluded, and so are those its own check refuses.
- CdbScan.Finder.Next: a comparison outside the file ends the search with a flag, since what lies there is not part of the model.
- CdbSeek.SeqNext: reads inside the data section; where a length exceeds the data it says what the numbers are and no more.
- CdbRoundTrip.PutsAndFinds: requires that all records ever put, with their slots, fit in 32 bits, though removals may have made room.
- CdbRoundTrip.PutAll: the same bound.
- CdbRoundTrip.BuildByPuts: the same bound.
- FuzzyTcp.Session.Deliver: what a command does is reduced to its outcome: answered, dropped, or left running and ended later.
- FuzzyUpdates.Updater.Live: the states of a terminating worker are one, no longer running; what makes it want to die is an event.
- ControllerThrottle.Throttle.Failure: which entries a full table evicts is a parameter, any set of others; windows of 2^32 seconds and more, whose conversion to a TTL the language leaves undefined, are not told apart; times and penalties are reals.
- ControllerAuth.Controller.CheckPassword: trust in an address, forwarded headers and the parsing of requests are parameters.
- ControllerThrottle.FewLives: requires that the clock never went back and no entry was evicted; otherwise the number of buckets is not bounded by time.
- The layout of numbers (`emit_*`, `fpconv_dtoa`), precision rules and special texts.
- Iterators, allocators, segmented storage, transparent lookup and the mixing of hashes in `unordered_dense.h`.
- `cdb_make_exists` and `cdb_make_find` as entry points, file descriptors, memory mapping and interrupted system calls in cdb.
- Encryption, rate limits, UDP, Lua handlers and replication in the fuzzy storage; HTTP routing and command handlers in the controller.
- The proxy, the main process and the other workers, and everything in rspamd's filters.
