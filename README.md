# CATE packet classification, modelled in Dafny

CATE is a testing environment for packet-classification algorithms. A benchmark is configured from a Lua script. The script builds rule sets of generic rule atoms (exact values, ranges and prefixes), packet headers and random distributions. Each classification algorithm converts the generic rules into its own data structures, classifies every header to the index of the first matching rule (or "no rule is matching"), and accepts rules being inserted and removed while it runs. The evaluator checks that all runs agree and reports the result indices and a histogram of rule hits, and memory metering records allocations by group and checkpoint. A set of Python tools turns ClassBench filter and trace files into benchmark scripts.

This project models that core and proves its properties:

- **Generic data.**
  - `GenericAtoms`: the rule atoms, with range-to-prefix decomposition and prefix mask lengths.
  - `VarValues`: bit-length negation of a value.
- **Five-tuple data and conversion.**
  - `Data5tpl`: the specific atoms, rules and rule set.
  - `Converter5tpl`: conversion from generic rules and headers, with its width checks.
- **Classifiers.**
  - `LinearSearch`: rules tried in order.
  - `Bitvector5tpl`, built on `Bitvectors` (word-packed bitvectors) and `DimensionRanges` (per-field partition of the domain into ranges carrying rule bitvectors).
  - `TupleSpace`, built on `TupleSpaceData` (prefix tuples, packed prefix rules, and the hash map whose bucket lists are kept sorted by rule index).
  - `HiCuts`: trie nodes over two dimensions that cut, remove redundant rules and search.
  - `HeaderCheckpoints`: the header counter each classifier keeps for the recurring memory checkpoints, with the count and the checkpoints after any number of headers in closed form.
- **Memory metering.**
  - `MemTrace`: per-allocation counters.
  - `MemSnapshots`: group snapshots.
  - `MemManagement`: the manager that registers items, groups them and takes checkpoints.
- **Evaluation.** `Histograms`, `Series` (minimum, maximum, median), `Evaluation` (index comparison across runs, the rule-hit histogram, chrono measurement tables) and `FilesysHelper` (path splitting).
- **Configuration.** `LuaConfiguration`: the configuration record and the builder behind the Lua functions.
- **ClassBench tools.** `ClassbenchConvert`, `ClassbenchStructure`, `ClassbenchMergeHeaders`, `ClassbenchMergeRules` and `CountTuples`, on top of `PyText`, which models the Python string operations they use.
- **Shared.** `BitOps` (powers of two, bit operations on naturals), `Sequences` (sequence lemmas) and `Results`.

How the source is mapped:

- Exceptions the C++ code throws become `Err` results or `Fail` outcomes that carry the source's message.
- A Python exception becomes a run that stops with the text written so far.
- Files and streams become sequences of lines read and strings written.
- GMP values are `nat`.
- `size_t` and 32-bit counters wrap modulo 2^64 and 2^32 explicitly, using `MemTrace.Word` and `BitOps.Limit32`.
- Classes whose fields the source updates in place are Dafny classes with `modifies` frames.
- The bitvector storage and the rule-set array are `array`s.
- The tuple-space map is an `array` of buckets, and each bucket's linked list is a sequence of rule values.
- HiCuts trie nodes are objects whose children are tracked by a `Repr` footprint.

## Model

| member | source | states |
|---|---|---|
| Bitvectors.StorageSize | include/algorithms/bitvector/DataBitvector.hpp:34 | the word count is the least n with 32·n ≥ bits |
| Bitvectors.FirstSetBit | src/algorithms/bitvector/DataBitvector.cpp:89-106 | the result is `noBitSetInBitvector()` exactly when no bit is set, otherwise a set bit below which no bit is set |
| Bitvectors.FirstSetFromCorrect | src/algorithms/bitvector/DataBitvector.cpp:90-105 | the scan from word i finds the least set bit at or after word i, or `NoBitSet` when there is none |
| Bitvectors.FirstSetHere | src/algorithms/bitvector/DataBitvector.cpp:93-100 | the first nonzero word after zero words holds the least set bit, at its lowest set offset |
| Bitvectors.ZeroWordSkipped | src/algorithms/bitvector/DataBitvector.cpp:93 | a zero word holds no set bit, so the scan may skip it |
| Bitvectors.LowestBitFromSpec | src/algorithms/bitvector/DataBitvector.cpp:96-100 | the inner scan returns the least set offset at or after `from`, or 32 when none is set |
| Bitvectors.LowestBitFromLeast | src/algorithms/bitvector/DataBitvector.cpp:96-100 | no offset between `from` and the scan's result is set |
| Bitvectors.LowestBitFound | src/algorithms/bitvector/DataBitvector.cpp:93-99 | inside a nonzero word the inner scan always finds a set offset below 32 |
| Bitvectors.SetBitEffect | src/algorithms/bitvector/DataBitvector.cpp:77-81 | after `setBit(p)` bit p is set and every other bit is as before |
| Bitvectors.AndWordsBits | src/algorithms/bitvector/DataBitvector.cpp:45-60 | `&=` keeps exactly the bits set in both operands |
| Bitvectors.OrWordsBits | src/algorithms/bitvector/DataBitvector.cpp:62-70 | `\|=` adds the other's bits that fall inside the receiver's words, and keeps the receiver's |
| Bitvectors.SelfOperations | src/algorithms/bitvector/DataBitvector.cpp:46 | and-ing or or-ing a vector with itself leaves it unchanged, as the self-assignment guards do |
| Bitvectors.BinaryOperators | src/algorithms/bitvector/DataBitvector.cpp:108-121 | the binary operators give the larger size, and `&` gives the intersection of the bit sets |
| Bitvectors.ZeroesHaveNoBits | src/algorithms/bitvector/DataBitvector.cpp:15-18 | a new vector has no bit set |
| Bitvectors.PositionCheckExamples | test/AlgDataBitvector.cpp:40-106 | the positions of the set-and-get test: a 4-bit vector accepts 3 and refuses 4 and 0x1FFFF, an empty vector refuses 0, and a 0xFFFF-bit vector accepts position 0xFFFF past its size |
| Bitvectors.ValueOperationsKeepValid | src/algorithms/bitvector/DataBitvector.cpp:77-121 | setting a bit and the binary operators keep 32-bit words in step with the size |
| Bitvectors.Bitvector.constructor | src/algorithms/bitvector/DataBitvector.cpp:15-18 | a new vector of n bits with every word zero |
| Bitvectors.Bitvector.Copy | src/algorithms/bitvector/DataBitvector.cpp:20-25 | the copy has the other's size and words in fresh storage |
| Bitvectors.Bitvector.Assign | src/algorithms/bitvector/DataBitvector.cpp:27-43 | takes over the other's size and words, reallocating only when the word counts differ |
| Bitvectors.Bitvector.AndAssign | src/algorithms/bitvector/DataBitvector.cpp:45-60 | the common words are and-ed and this vector's extra words zeroed; the size is kept |
| Bitvectors.Bitvector.OrAssign | src/algorithms/bitvector/DataBitvector.cpp:62-70 | the common words are or-ed and this vector's extra words kept |
| Bitvectors.Bitvector.SetBit | src/algorithms/bitvector/DataBitvector.cpp:77-81 | a position the storage check accepts gets its bit set; any other throws and changes nothing |
| Bitvectors.Bitvector.GetBit | src/algorithms/bitvector/DataBitvector.cpp:83-87 | returns the bit at an accepted position, throws at any other |
| Bitvectors.Bitvector.GetFirstSetBit | src/algorithms/bitvector/DataBitvector.cpp:89-106 | returns the least set position, or `NoBitSet` exactly when no bit is set |
| Bitvectors.AndOf | src/algorithms/bitvector/DataBitvector.cpp:109-114 | a new vector copied from the larger operand and and-ed with the other |
| Bitvectors.OrOf | src/algorithms/bitvector/DataBitvector.cpp:116-121 | a new vector copied from the larger operand and or-ed with the other |
| BitvectorClassifier.AtomRange | src/algorithms/bitvector/Bitvector5tpl.cpp:157-195 | a wildcard gives the whole field domain (0xFFFFFFFF, 0xFFFF or 0xFF), another atom its `toRange` bounds cast to the field type; both bounds stay inside the domain |
| BitvectorClassifier.AtomRangeMeaning | src/algorithms/bitvector/Bitvector5tpl.cpp:157-166 | a wildcard's range holds every field value; another atom whose bounds fit the field holds exactly the values between them |
| BitvectorClassifier.FieldRangeOfStoreAtoms | src/algorithms/bitvector/Bitvector5tpl.cpp:168-199 | the range the stored rule checks in field k is the range of atom k |
| BitvectorClassifier.Project | src/algorithms/bitvector/Bitvector5tpl.cpp:46-72 | the segments of field k after the first i rules are added; every bitvector has the rule count as its size |
| BitvectorClassifier.ProjectionPartition | src/algorithms/bitvector/Bitvector5tpl.cpp:52-67 | with proper ranges, the segments of each field tile its whole domain in order, without gaps or overlaps |
| BitvectorClassifier.ProjectionCovers | src/algorithms/bitvector/Bitvector5tpl.cpp:52-67 | with proper ranges, every value of the field lies in exactly one proper segment |
| BitvectorClassifier.ProjectionBits | src/algorithms/bitvector/Bitvector5tpl.cpp:61-70 | the bitvector of value v in field k has bit t set exactly when rule t was added and its range k holds v |
| BitvectorClassifier.ProjectionStepBits | src/algorithms/bitvector/Bitvector5tpl.cpp:63-69 | adding rule i sets bit i of v's bitvector exactly when its range holds v, and keeps the other bits |
| BitvectorClassifier.ProjectionBitsStart | src/algorithms/bitvector/Bitvector5tpl.cpp:52-56 | before any rule is added, every value maps to an all-zero vector |
| BitvectorClassifier.StepBits | src/algorithms/bitvector/Bitvector5tpl.cpp:63 | one `addRange` at position p sets bit p of value v's bitvector exactly when the key holds v |
| BitvectorClassifier.Combined | src/algorithms/bitvector/Bitvector5tpl.cpp:101-127 | the and of a header's five bitvectors, in the order `classify` combines them, has 32-bit words |
| BitvectorClassifier.FirstStoredFrom | src/algorithms/bitvector/Bitvector5tpl.cpp:129 | the reference first match: the least stored rule from i on whose five ranges hold the header, or none exactly when no such rule exists |
| BitvectorClassifier.CombinedBits | src/algorithms/bitvector/Bitvector5tpl.cpp:101-127 | with proper ranges, bit t of the combined vector is set exactly when stored rule t holds the header |
| BitvectorClassifier.AndFiveBits | src/algorithms/bitvector/Bitvector5tpl.cpp:109-127 | a bit of the and of five vectors is set exactly when it is set in each |
| BitvectorClassifier.ClassifyIsFirstMatch | src/algorithms/bitvector/Bitvector5tpl.cpp:99-132 | the first set bit of the combined vector is the least index of a matching rule, or `noBitSetInBitvector()` when none matches |
| BitvectorClassifier.ClassifiedStep | src/algorithms/bitvector/Bitvector5tpl.cpp:94-135 | one more classified header keeps the loop's invariant: every header so far converted, every index its first match |
| BitvectorClassifier.HeaderInDomain | src/algorithms/bitvector/Bitvector5tpl.cpp:52-56 | every field of a converted header lies in the domain of its projection |
| BitvectorClassifier.AddRuleRange | src/algorithms/bitvector/Bitvector5tpl.cpp:63-67 | one `addRange` of range k of rule i moves field k's map from i to i + 1 added rules |
| BitvectorClassifier.BuildProjection | src/algorithms/bitvector/Bitvector5tpl.cpp:52-70 | field k's map holds range k of every rule t at bit t |
| BitvectorClassifier.BuildProjections | src/algorithms/bitvector/Bitvector5tpl.cpp:46-72 | five fresh maps, one per field, each built from all stored rules |
| BitvectorClassifier.Bitvector5tpl.constructor | src/algorithms/bitvector/Bitvector5tpl.cpp:7-9 | no rules and no projections, one header per checkpoint, no header counted, no checkpoint set |
| BitvectorClassifier.Bitvector5tpl.SetParameters | src/algorithms/bitvector/Bitvector5tpl.cpp:11-21 | the first value sets the headers per checkpoint, 0 becoming 1; no value leaves the setting; nothing else changes |
| BitvectorClassifier.Bitvector5tpl.HeaderProcessed | src/algorithms/bitvector/Bitvector5tpl.cpp:138-145 | the count and checkpoints are those of one `HeaderCheckpoints.Step`: the count goes up by one, and on reaching the setting it is handed to a checkpoint and starts from 0; rules and projections are kept |
| BitvectorClassifier.Bitvector5tpl.ConstructProjections | src/algorithms/bitvector/Bitvector5tpl.cpp:46-72 | the rules are kept and all five projections are rebuilt from them |
| BitvectorClassifier.Bitvector5tpl.ConvertRuleAndStore | src/algorithms/bitvector/Bitvector5tpl.cpp:147-201 | a rule with fewer than five atoms throws and changes nothing; otherwise its five ranges are inserted at pos |
| BitvectorClassifier.Bitvector5tpl.SetRules | src/algorithms/bitvector/Bitvector5tpl.cpp:25-44 | succeeds exactly when every rule has five atoms, then stores them in order, projects and sets a checkpoint of 0; a short rule throws with the rules before it stored, the old projections left and no checkpoint set |
| BitvectorClassifier.Bitvector5tpl.ClassifyTuple | src/algorithms/bitvector/Bitvector5tpl.cpp:99-129 | one converted header gets its first matching rule's index, or `noBitSetInBitvector()` |
| BitvectorClassifier.Bitvector5tpl.Classify | src/algorithms/bitvector/Bitvector5tpl.cpp:74-136 | throws with no index written when the projections are unset; otherwise succeeds exactly when every header converts, each index written is that header's first match, and a failure comes at the first header that does not convert, after the indices of the headers before it. The count and checkpoints are `HeaderCheckpoints.After` of the indices written. The headers go through the corrected `Converter5tpl.ConvertHeader` (see Findings) |
| BitvectorClassifier.Bitvector5tpl.RuleAdded | src/algorithms/bitvector/Bitvector5tpl.cpp:203-214 | throws for an index past the end or a rule of fewer than five atoms, changing nothing; otherwise inserts the rule there, rebuilds and sets a checkpoint of 0 |
| BitvectorClassifier.Bitvector5tpl.RuleRemoved | src/algorithms/bitvector/Bitvector5tpl.cpp:216-227 | throws for an index at or past the end, changing nothing; otherwise erases that rule, keeps the order of the others, rebuilds and sets a checkpoint of 0 |
| BitvectorClassifier.Bitvector5tpl.Reset | src/algorithms/bitvector/Bitvector5tpl.cpp:229-237 | no header counted towards the next checkpoint, no rules and no projections; the setting and the checkpoints already set are kept |
| BitvectorClassifier.SearchesFind | src/algorithms/bitvector/Bitvector5tpl.cpp:101-125 | with current projections the five searches of a valid header succeed and give its bitvectors |
| BitvectorClassifier.SearchFinds | src/algorithms/bitvector/Bitvector5tpl.cpp:101-103 | searching one value of a field finds the bitvector of the segment that holds it |
| Converter5tpl.ConvertAtomChecked | src/algorithms/Converter5tpl.cpp:4-128 | converts exactly when every value of the atom passes its width test (minimum before maximum, prefix before mask, each with its own message); a value that fits the field keeps it |
| Converter5tpl.TruncateFitting | src/algorithms/Converter5tpl.cpp:15 | a value below a check limit that is at most the field size survives the cast unchanged |
| Converter5tpl.ConvertRuleAtom8AsWrittenAccepts256 | src/algorithms/Converter5tpl.cpp:93-100 | as written, the 8-bit conversion accepts the exact value 256 and turns it into an atom for protocol 0, which its range (256, 256) does not hold |
| Converter5tpl.ConvertRuleAtom8Refuses256 | src/algorithms/Converter5tpl.cpp:96-97 | checked against its own 8 bits, as the message says, 256 is refused |
| Converter5tpl.ConvertedAtomMatchesRange | src/algorithms/Converter5tpl.cpp:4-86 | a converted atom matches a field value exactly when the generic atom's range holds it (exact, range, and prefix with a top-bit mask); a wildcard matches every value |
| Converter5tpl.ConvertRule | src/algorithms/Converter5tpl.cpp:130-159 | corrected conversion (protocol checked against 8 bits): succeeds exactly when there are five atoms that fit address, address, port, port and protocol, giving their specific atoms in order |
| Converter5tpl.ConvertRuleAsWritten | src/algorithms/Converter5tpl.cpp:130-159 | the conversion as written: succeeds exactly when there are five atoms fitting 32, 32, 16, 16 and 16 bits |
| Converter5tpl.ConvertRuleAsWrittenAgrees | src/algorithms/Converter5tpl.cpp:130-159 | on rules whose protocol atom fits 8 bits the two conversions give the same result |
| Converter5tpl.Atom8AsWrittenAgrees | src/algorithms/Converter5tpl.cpp:88-128 | an atom that fits 8 bits converts the same under the 16-bit test and the 8-bit one |
| Converter5tpl.ConvertHeaderAsWritten | src/algorithms/Converter5tpl.cpp:161-180 | as written: succeeds exactly when there are five values fitting 32, 32, 16, 16 and 16 bits; the protocol is taken mod 256 |
| Converter5tpl.ConvertHeaderAsWrittenTruncates | src/algorithms/Converter5tpl.cpp:172-179 | as written, the line [0, 0, 0, 0, 262] becomes protocol 6 |
| Converter5tpl.ConvertHeader | src/algorithms/Converter5tpl.cpp:161-180 | corrected conversion: succeeds exactly when there are five values fitting 32, 32, 16, 16 and 8 bits, and gives them in order; each failure has the source's message |
| Converter5tpl.ConvertHeaderAsWrittenAgrees | src/algorithms/Converter5tpl.cpp:161-180 | wherever the corrected conversion succeeds, the one as written gives the same header |
| Converter5tpl.ConvertHeaderRefuses262 | src/algorithms/Converter5tpl.cpp:172-173 | the corrected conversion refuses protocol 262 |
| Data5tpl.FirstMatch | src/algorithms/Data5tpl.cpp:16-27 | the reference first match: the least index of a matching rule, or none exactly when no rule matches |
| Data5tpl.PrefixAtomExample | test/AlgData5tpl.cpp:55-63 | the 8-bit prefix test: 0x2D under mask 0xFC matches exactly the bytes 0x2C to 0x2F |
| Data5tpl.EmptyMaskMatchesAll | include/algorithms/common/Data5tpl.hpp:107 | a prefix atom with mask 0 matches every value |
| Data5tpl.RuleSet.constructor | include/algorithms/common/Data5tpl.hpp:154 | `initSize` empty slots |
| Data5tpl.RuleSet.SetRule | src/algorithms/Data5tpl.cpp:11-14 | fills one slot; an index past the size throws and changes nothing |
| Data5tpl.RuleSet.Match | src/algorithms/Data5tpl.cpp:16-27 | the index of the first rule that matches the header, or none exactly when no rule matches |
| Data5tpl.RuleSet.SwapRule | src/algorithms/Data5tpl.cpp:29-35 | succeeds exactly when the index is inside and its slot is set, then exchanges the two; otherwise nothing changes |
| Data5tpl.MatchIsFirstMatch | src/algorithms/Data5tpl.cpp:16-27 | a matching rule with no matching rule before it is the first match |
| DimensionRanges.LessIsStrictTotalOrder | include/algorithms/bitvector/DataBitvector.hpp:99-101 | `operator<` on ranges is irreflexive, asymmetric, transitive and total up to equality |
| DimensionRanges.OverlapsMeansCommonValue | include/algorithms/bitvector/DataBitvector.hpp:108-110 | `overlaps` is symmetric, and on proper ranges it holds exactly when they share a value |
| DimensionRanges.AddRangeSegsSnoc | include/algorithms/bitvector/DataBitvector.hpp:325-374 | `addRange` works segment by segment: the map of one more segment is the map before it followed by that segment's pieces |
| DimensionRanges.PiecesPartition | include/algorithms/bitvector/DataBitvector.hpp:335-363 | the pieces of a split segment tile exactly that segment |
| DimensionRanges.AddRangePartition | include/algorithms/bitvector/DataBitvector.hpp:315-375 | with a proper key, `addRange` keeps the segments a partition of the domain |
| DimensionRanges.AddRangeSized | include/algorithms/bitvector/DataBitvector.hpp:315-375 | `addRange` keeps every bitvector well formed and of the same size |
| DimensionRanges.PiecesLookup | include/algorithms/bitvector/DataBitvector.hpp:335-363 | a value of a split segment keeps its old bitvector outside the key and gains bit p inside it |
| DimensionRanges.AddRangeLookup | include/algorithms/bitvector/DataBitvector.hpp:315-375 | after `addRange(key, p)` every value keeps the bitvector it had, with bit p set exactly when the key holds the value |
| DimensionRanges.PartitionCovers | include/algorithms/bitvector/DataBitvector.hpp:277-281 | on a partition of the domain every value of the domain lies in a proper segment inside the domain |
| DimensionRanges.FindPoint | include/algorithms/bitvector/DataBitvector.hpp:392 | with proper segments, finding the single-value key [v, v] is looking v up |
| DimensionRanges.PointSearch | include/algorithms/bitvector/DataBitvector.hpp:384-397 | on a partition, a single value of the domain is found in the segment that holds it |
| DimensionRanges.AnyOverlapDomain | include/algorithms/bitvector/DataBitvector.hpp:323 | on a partition of the domain, `equal_range` visits a segment exactly when the key meets the domain |
| DimensionRanges.FindSized | include/algorithms/bitvector/DataBitvector.hpp:392-394 | what `find` returns is one of the segments' bitvectors |
| DimensionRanges.LookupIndex | include/algorithms/bitvector/DataBitvector.hpp:392 | the segment that a lookup finds holds the value and carries the bitvector returned |
| DimensionRanges.DimensionRanges.constructor | include/algorithms/bitvector/DataBitvector.hpp:295 | one segment over [min, max] with a zero bitvector of the given size |
| DimensionRanges.DimensionRanges.Reset | include/algorithms/bitvector/DataBitvector.hpp:298-301 | the single zero segment over the domain again |
| DimensionRanges.DimensionRanges.AddRange | include/algorithms/bitvector/DataBitvector.hpp:315-375 | each overlapping segment is replaced by its pieces with bit p set where the key holds; a position the bitvectors refuse throws before anything changes; a proper key keeps the partition |
| DimensionRanges.DimensionRanges.Search | include/algorithms/bitvector/DataBitvector.hpp:384-397 | a key outside the domain throws; on a partition a single value gives the bitvector of its segment; the result has the map's size |
| GenericAtoms.ToRange | include/data/RuleAtom.hpp:38-82 | an exact atom gives [value, value], a range atom its bounds, a wildcard prefix [0, 0] |
| GenericAtoms.NegatedPrefixMask | include/data/RuleAtom.hpp:82 | the complement of a top-`len` mask of a w-bit word is the all-ones value of its low w − len bits |
| GenericAtoms.PrefixRangeIsBlock | include/data/RuleAtom.hpp:82 | the range of a prefix atom with a contiguous mask is the aligned block of 2^(w − len) values that holds the prefix |
| GenericAtoms.PrefixRangeMembership | include/data/RuleAtom.hpp:82 | a w-bit value lies in that range exactly when its masked bits equal the prefix's masked bits |
| GenericAtoms.PrefixRangeExample | test/RuleSet.cpp:88-91 | the prefix test of `toRange`: 0x17880 under mask 0xFFF00 stands for [0x17800, 0x178FF] |
| GenericAtoms.BlockExp | src/generics/RuleAtom.cpp:9-15 | the block exponent the inner loop stops at lies between where it starts and the width |
| GenericAtoms.BlockExpProperties | src/generics/RuleAtom.cpp:9-15 | the block found is aligned, fits below the range's end, and its double is misaligned or passes the end |
| GenericAtoms.BlocksTile | src/generics/RuleAtom.cpp:3-18 | the emitted blocks start at the minimum, follow each other without gaps, are each aligned and maximal, and end at the maximum |
| GenericAtoms.TilesCover | src/generics/RuleAtom.cpp:3-18 | a value is covered by one of the blocks exactly when it lies in [min, max] |
| GenericAtoms.TilesStartAtLeast | src/generics/RuleAtom.cpp:3-18 | every block lies inside [min, max] |
| GenericAtoms.RangeToPrefixes | src/generics/RuleAtom.cpp:3-18 | the loop emits exactly the block list defined by the tiling |
| GenericAtoms.FindBlockExp | src/generics/RuleAtom.cpp:9-15 | the inner loop stops at the block exponent |
| GenericAtoms.BlockGrows | src/generics/RuleAtom.cpp:9-11 | while the block can still double, the search continues below the width to the same exponent |
| GenericAtoms.MaskLength | src/generics/RuleAtom.cpp:20-28 | counts the set bits among the low `width` bits of the mask |
| GenericAtoms.ToPrefixes | include/data/RuleAtom.hpp:39-83 | appends the atom's prefix list: (value, width) for an exact atom, (prefix, mask length) for a prefix atom, the tiling for a range atom |
| GenericAtoms.PrefixAtomRoundTrip | include/data/RuleAtom.hpp:82-83 | a prefix atom whose mask is the top `len` bits is reported back with length `len` |
| GenericAtoms.RangeAtomPrefixesTile | src/generics/RuleAtom.cpp:3-18 | the prefix list of a range atom tiles its range and covers exactly its values |
| GenericAtoms.RuleSetIsValid | src/generics/RuleSet.cpp:3-19 | true exactly when every rule after the first rule with atoms has that rule's atom count |
| VarValues.NegateVarValue | src/generics/VarValue.cpp:4-15 | the loop's result is the complement of the value within its bit length |
| VarValues.NegateLoopResult | src/generics/VarValue.cpp:7-13 | what the loop leaves behind, after the extra digit is dropped, is the complement |
| VarValues.NegatedIsXor | src/generics/VarValue.cpp:13 | the complement is the xor with the all-ones value of the same length |
| VarValues.NegatedComplements | src/generics/VarValue.cpp:4-15 | the complement shares no bit with the value and together they fill its bit length |
| VarValues.NegatedOnes | src/generics/VarValue.cpp:4-15 | a run of ones, and zero, negate to zero |
| TupleSpaceData.MakePrefix | include/algorithms/tuples/DataTupleSpace.hpp:26-30 | a prefix of length w keeps the value and shifts by bits − w; it is a wildcard exactly when w is 0 |
| TupleSpaceData.PrefixMatchMeaning | include/algorithms/tuples/DataTupleSpace.hpp:32-34 | a prefix of length w matches a field value exactly when their top w bits agree |
| TupleSpaceData.FullWidthMatch | include/algorithms/tuples/DataTupleSpace.hpp:32-34 | a prefix of the full field width matches only its own value |
| TupleSpaceData.TupleRoundTrip | include/algorithms/tuples/DataTupleSpace5tpl.hpp:18-46 | packing five lengths and reading them back gives each length cut to 6, 6, 5, 5 and 4 bits; the packed word has 26 bits |
| TupleSpaceData.Width1OfUpper | include/algorithms/tuples/DataTupleSpace5tpl.hpp:42-43 | the first length read from bit 20 up is the part above the second length read from bit 14 up |
| TupleSpaceData.ResponsibleWidths | include/algorithms/tuples/DataTupleSpace5tpl.hpp:205-209 | tuples that agree under mask 0xFFFFC000 have the same first two lengths |
| TupleSpaceData.ResponsibleMeaning | include/algorithms/tuples/DataTupleSpace5tpl.hpp:205-209 | a map is responsible for a rule exactly when their first two cut lengths agree |
| TupleSpaceData.MadeRuleWf | include/algorithms/tuples/DataTupleSpace5tpl.hpp:65-78 | a constructed rule carries its index, and its first two prefixes shift by 32 minus the lengths in its tuple |
| TupleSpaceData.HashOfMatch | include/algorithms/tuples/DataTupleSpace5tpl.hpp:83-136 | a rule that matches a header hashes like the header under the map's shifts |
| TupleSpaceData.FirstMatchIndex | include/algorithms/tuples/DataTupleSpace5tpl.hpp:218-231 | the index of the first matching rule of a list, or none exactly when no rule of it matches |
| TupleSpaceData.SortedFirstIsLeast | include/algorithms/tuples/DataTupleSpace5tpl.hpp:218-226 | in a list sorted by index, the first match has the least index of all matches |
| TupleSpaceData.InsertSortedContents | include/algorithms/tuples/DataTupleSpace5tpl.hpp:171-202 | inserting into a bucket adds exactly the new rule |
| TupleSpaceData.InsertSortedBound | include/algorithms/tuples/DataTupleSpace5tpl.hpp:171-202 | inserting keeps a lower bound common to the bucket and the rule |
| TupleSpaceData.InsertSortedSorted | include/algorithms/tuples/DataTupleSpace5tpl.hpp:180-200 | inserting before the first rule with a larger index keeps the bucket sorted |
| TupleSpaceData.InsertSortedSkip | include/algorithms/tuples/DataTupleSpace5tpl.hpp:185-200 | the insertion point comes after every leading rule whose index is at most the new one's |
| TupleSpaceData.RaiseAll | include/algorithms/tuples/DataTupleSpace5tpl.hpp:238-248 | every rule of a bucket gets its index raised when it is at least `oldIndex` |
| TupleSpaceData.LowerAll | include/algorithms/tuples/DataTupleSpace5tpl.hpp:254-264 | every rule of a bucket gets its index lowered when it is above `oldIndex` |
| TupleSpaceData.ShiftsKeepSorted | include/algorithms/tuples/DataTupleSpace5tpl.hpp:238-264 | raising and lowering indices keep a bucket sorted |
| TupleSpaceData.Removed | include/algorithms/tuples/DataTupleSpace5tpl.hpp:267-298 | the intended removal from a bucket: a rule stays exactly when its index differs |
| TupleSpaceData.RemovedSorted | include/algorithms/tuples/DataTupleSpace5tpl.hpp:267-298 | removal keeps a bucket sorted |
| TupleSpaceData.RemoveAsWrittenFreesSuccessors | include/algorithms/tuples/DataTupleSpace5tpl.hpp:274-278 | as written, removing index 0 from the bucket [rule 0, rule 1] also frees rule 1, through the destructor of rule 0 |
| TupleSpaceData.InBucketsContents | include/algorithms/tuples/DataTupleSpace5tpl.hpp:114 | a rule is stored exactly when some bucket lists it |
| TupleSpaceData.InsertedContents | include/algorithms/tuples/DataTupleSpace5tpl.hpp:171-202 | inserting into one bucket adds exactly that rule to what the map stores |
| TupleSpaceData.RemovedContents | include/algorithms/tuples/DataTupleSpace5tpl.hpp:267-298 | removing from every bucket drops exactly the stored rules with that index |
| TupleSpaceData.RaisedContents | include/algorithms/tuples/DataTupleSpace5tpl.hpp:238-248 | raising the indices of every bucket raises the index of every stored rule |
| TupleSpaceData.LoweredContents | include/algorithms/tuples/DataTupleSpace5tpl.hpp:254-264 | lowering the indices of every bucket lowers the index of every stored rule |
| TupleSpaceData.RaiseBucket | include/algorithms/tuples/DataTupleSpace5tpl.hpp:241-246 | the list walk of `incrementIndex` gives the raised bucket |
| TupleSpaceData.LowerBucket | include/algorithms/tuples/DataTupleSpace5tpl.hpp:257-262 | the list walk of `decrementIndex` gives the lowered bucket |
| TupleSpaceData.InsertIntoBucket | include/algorithms/tuples/DataTupleSpace5tpl.hpp:185-201 | the list walk of `insert` puts the rule before the first later rule with a larger index, or at the end |
| TupleSpaceData.RemoveFromBucket | include/algorithms/tuples/DataTupleSpace5tpl.hpp:270-296 | the intended walk of `remove`: leading rules with the index are unlinked from the head, then every further one |
| TupleSpaceData.RemoveWalk | include/algorithms/tuples/DataTupleSpace5tpl.hpp:284-294 | one step of the walk drops a rule with the index and keeps any other |
| TupleSpaceData.Map.MatchIndicesOfContents | include/algorithms/tuples/DataTupleSpace5tpl.hpp:212-232 | the matching indices of the map are those of its matching stored rules |
| TupleSpaceData.Map.MatchesAboveMin | include/algorithms/tuples/DataTupleSpace5tpl.hpp:130-173 | no matching index lies below `minIndex` |
| TupleSpaceData.Map.constructor | include/algorithms/tuples/DataTupleSpace5tpl.hpp:139-158 | empty buckets, the shifts derived from the tuple's lengths and `minIndex` set to `noIndex` |
| TupleSpaceData.Map.MatchInHashBucket | include/algorithms/tuples/DataTupleSpace5tpl.hpp:133-175 | a stored rule matching a header sits in the bucket of the header's hash |
| TupleSpaceData.Map.NoMatchOutsideHashBucket | include/algorithms/tuples/DataTupleSpace5tpl.hpp:212-231 | no match in the header's bucket means no match in the map |
| TupleSpaceData.Map.FirstOfHashBucketIsLeast | include/algorithms/tuples/DataTupleSpace5tpl.hpp:212-226 | the first match of the header's bucket has the least matching index of the whole map |
| TupleSpaceData.Map.Lookup | include/algorithms/tuples/DataTupleSpace5tpl.hpp:212-232 | the least index of the map's rules matching the header, or `noRuleIsMatching()` exactly when none matches |
| TupleSpaceData.Map.InsertKeepsBuckets | include/algorithms/tuples/DataTupleSpace5tpl.hpp:171-202 | inserting a placed rule into its bucket keeps every bucket sorted and placed, with the bound lowered to the rule's index |
| TupleSpaceData.Map.RemoveKeepsBuckets | include/algorithms/tuples/DataTupleSpace5tpl.hpp:267-298 | removing an index from every bucket keeps them sorted, with the bound moved past the index when it was the bound |
| TupleSpaceData.Map.Insert | include/algorithms/tuples/DataTupleSpace5tpl.hpp:171-202 | `minIndex` takes the rule's index when smaller; the rule goes into the bucket of its hash; exactly that rule is added |
| TupleSpaceData.Map.IncrementIndex | include/algorithms/tuples/DataTupleSpace5tpl.hpp:238-248 | every stored index from `oldIndex` on goes up by one; `minIndex` stays |
| TupleSpaceData.Map.DecrementIndexAsWritten | include/algorithms/tuples/DataTupleSpace5tpl.hpp:254-264 | as written: every stored index above `oldIndex` goes down by one and `minIndex` is left as it was |
| TupleSpaceData.Map.DecrementIndex | include/algorithms/tuples/DataTupleSpace5tpl.hpp:254-264 | the corrected index update (see Findings): as `decrementIndex`, and `minIndex` also goes down when it is above `oldIndex`, so it stays a lower bound |
| TupleSpaceData.Map.Remove | include/algorithms/tuples/DataTupleSpace5tpl.hpp:267-298 | the intended removal (see Findings): `minIndex` moves past the index when equal, every rule with the index is unlinked and the others keep their order |
| TupleSpaceData.Map.RemoveFromAll | include/algorithms/tuples/DataTupleSpace5tpl.hpp:270-297 | the loop over all buckets removes the index from each |
| TupleSpace.ExpandableFits | src/algorithms/TupleSpace5tpl.cpp:56-66 | the first five atoms of an expandable rule convert to prefix lists that fit their fields |
| TupleSpace.ChoicesMembership | src/algorithms/TupleSpace5tpl.cpp:69-87 | a combination is produced from level k on exactly when it starts with the chosen pairs and takes every later pair from its own list |
| TupleSpace.ChoicesCount | src/algorithms/TupleSpace5tpl.cpp:69-87 | the nested loops produce as many combinations as the product of the list lengths |
| TupleSpace.ChoicesFit | src/algorithms/TupleSpace5tpl.cpp:74-80 | every combination of fitting lists fits the prefix-rule constructor |
| TupleSpace.MakeRules | src/algorithms/TupleSpace5tpl.cpp:74-82 | one prefix rule per combination, each with the rule's index |
| TupleSpace.ExpandFrom | src/algorithms/TupleSpace5tpl.cpp:69-87 | the nested loops from level k on append the prefix rules of all combinations after the chosen pairs |
| TupleSpace.ExpandLevel | src/algorithms/TupleSpace5tpl.cpp:69-73 | the loop of one level appends the combinations of every pair of its list in order |
| TupleSpace.ExpandStep | src/algorithms/TupleSpace5tpl.cpp:69-87 | one pass of a level's loop adds the combinations of the next level under the pair picked |
| TupleSpace.ConvertRuleToMany | src/algorithms/TupleSpace5tpl.cpp:44-88 | a rule of fewer than five atoms throws; otherwise the result is the expansion of its five prefix lists |
| TupleSpace.ExpansionIsProduct | src/algorithms/TupleSpace5tpl.cpp:69-87 | the expansion is the cartesian product: its size is the product of the list lengths, and a prefix rule is in it exactly when it is built from one pair of each list with the rule's index |
| TupleSpace.InUnionAll | src/algorithms/TupleSpace5tpl.cpp:141-147 | a rule lies in the union of the maps' rule sets exactly when one map holds it |
| TupleSpace.UnionAllAdd | src/algorithms/TupleSpace5tpl.cpp:19-42 | adding rules to one map adds them to the union |
| TupleSpace.UnionAllRaise | src/algorithms/TupleSpace5tpl.cpp:211-213 | raising the indices of every map raises those of the union |
| TupleSpace.UnionAllRemove | src/algorithms/TupleSpace5tpl.cpp:229-233 | removing an index from every map removes it from the union and lowers the indices above it |
| TupleSpace.MatchesInUnion | src/algorithms/TupleSpace5tpl.cpp:141-147 | the matching indices of a union are those of its parts |
| TupleSpace.LeastOfUnion | src/algorithms/TupleSpace5tpl.cpp:145-158 | taking the smaller of the best so far and another set's best gives the best of the union |
| TupleSpace.FirstExpanded | src/algorithms/TupleSpace5tpl.cpp:154-161 | the index of the first entry of the expanded list whose rule matches, or none exactly when no entry matches |
| TupleSpace.SortedFirstExpandedIsLeast | src/algorithms/TupleSpace5tpl.cpp:154-161 | in an expanded list ordered by index the first match has the least index of all matching entries |
| TupleSpace.PrunedMinIsLeast | src/algorithms/TupleSpace5tpl.cpp:141-147 | the map loop with its pruning on each map's `minIndex`: while every `minIndex` is a lower bound of its map's lookup, it finds the least lookup result |
| TupleSpace.LeastFoundBounded | src/algorithms/TupleSpace5tpl.cpp:137 | the least lookup result is at most `noRuleIsMatching()` |
| TupleSpace.StaleMinIndexMissesMatch | src/algorithms/TupleSpace5tpl.cpp:141-147 | with a `minIndex` left stale by `decrementIndex` as written (`minIndex` 1 over a map whose rule is now 0), the pruning reports 1 where the least match is 0 |
| TupleSpace.ClassifiedAt | src/algorithms/TupleSpace5tpl.cpp:131-171 | the results for a list of headers give every header its classification |
| TupleSpace.ClassifiedExtend | src/algorithms/TupleSpace5tpl.cpp:168 | one more header classified extends the results |
| TupleSpace.LeastOfAllCandidates | src/algorithms/TupleSpace5tpl.cpp:141-164 | with the expanded list ordered, the least of the candidates is the least index of all matching rules of maps and list |
| TupleSpace.MinEntryIsLeast | src/algorithms/TupleSpace5tpl.cpp:106 | `expandMinIdx` is at most its start value and every appended index, and is one of them |
| TupleSpace.NewEntriesBelow | src/algorithms/TupleSpace5tpl.cpp:96-107 | the entries appended for the first n rules have indices below n |
| TupleSpace.NewEntriesSorted | src/algorithms/TupleSpace5tpl.cpp:96-107 | `setRules` appends entries in increasing index order |
| TupleSpace.SortedAppend | src/algorithms/TupleSpace5tpl.cpp:105 | appending an entry not below any earlier index keeps the list ordered |
| TupleSpace.MapsOkIff | src/algorithms/TupleSpace5tpl.cpp:141 | the per-map invariant held recursively is the invariant of each map |
| TupleSpace.InsertByMin | src/algorithms/TupleSpace5tpl.cpp:117 | one insertion of the sort by `minIndex` gives an ordered permutation with the map placed before the first larger one |
| TupleSpace.InsertionSorted | src/algorithms/TupleSpace5tpl.cpp:12-17 | placing a map after those not above it and before a larger one keeps the order |
| TupleSpace.PermutedUnion | src/algorithms/TupleSpace5tpl.cpp:117 | a permutation of the maps has the same union of rules |
| TupleSpace.FirstResponsible | src/algorithms/TupleSpace5tpl.cpp:24-30 | the first map responsible for a tuple, or the number of maps when none is |
| TupleSpace.TupleSpace5tpl.constructor | src/algorithms/TupleSpace5tpl.cpp:8-10 | no maps, an empty expanded list with `expandMinIdx` = `noRuleIsMatching()`, one header per checkpoint; the capacity is a parameter |
| TupleSpace.TupleSpace5tpl.HeaderProcessed | src/algorithms/TupleSpace5tpl.cpp:174-181 | the count and checkpoints are those of one `HeaderCheckpoints.Step`: the header count goes up, and once it reaches the setting a checkpoint of that count is set and the count starts again from 0; the maps and settings are kept |
| TupleSpace.TupleSpace5tpl.SetParameters | src/algorithms/TupleSpace5tpl.cpp:183-205 | the first value sets the headers per checkpoint (0 becomes 1), the second the capacity (0 becomes 100); nothing else changes |
| TupleSpace.TupleSpace5tpl.PlaceRuleInMap | src/algorithms/TupleSpace5tpl.cpp:19-42 | the rule goes into the first responsible map; without one a new map of the rule's tuple and the current capacity is appended and takes it; exactly the rule is added |
| TupleSpace.TupleSpace5tpl.AppendMap | src/algorithms/TupleSpace5tpl.cpp:32-39 | a new empty map of the tuple and the capacity is appended; the stored rules stay |
| TupleSpace.TupleSpace5tpl.ClassifyTuple | src/algorithms/TupleSpace5tpl.cpp:137-164 | one converted header's result is the least of `noRuleIsMatching()` and the indices of all matching rules of maps and expanded list |
| TupleSpace.TupleSpace5tpl.Classify | src/algorithms/TupleSpace5tpl.cpp:124-172 | succeeds exactly when every header converts; each index written is the least matching index or `noRuleIsMatching()`; a failure comes at the first header that does not convert, after the indices of the headers before it; the count and checkpoints are `HeaderCheckpoints.After` of the indices written. The headers go through the corrected `Converter5tpl.ConvertHeader` (see Findings) |
| TupleSpace.TupleSpace5tpl.PlaceAll | src/algorithms/TupleSpace5tpl.cpp:111-113 | the prefix rules are placed one after the other; exactly they are added |
| TupleSpace.TupleSpace5tpl.SortMaps | src/algorithms/TupleSpace5tpl.cpp:117 | the maps are ordered by `minIndex`, a permutation keeping their rules |
| TupleSpace.TupleSpace5tpl.SetRules | src/algorithms/TupleSpace5tpl.cpp:90-122 | succeeds exactly when every rule is taken; the rules placed and the entries appended are those of the rule set, `expandMinIdx` their least index, the maps sorted and a checkpoint of 0 set; a refused rule throws with the earlier ones stored. An expanded rule goes through the corrected `Converter5tpl.ConvertRule` (see Findings) |
| TupleSpace.TupleSpace5tpl.StoreRules | src/algorithms/TupleSpace5tpl.cpp:96-114 | the loop stores the first n rules and stops exactly at the first refused one |
| TupleSpace.TupleSpace5tpl.StoreRule | src/algorithms/TupleSpace5tpl.cpp:98-113 | one rule: several prefix rules are converted and appended to the expanded list with `expandMinIdx` lowered, otherwise its prefix rules are placed; a failing conversion throws before anything changes |
| TupleSpace.TupleSpace5tpl.RuleAdded | src/algorithms/TupleSpace5tpl.cpp:207-225 | every stored index from `index` on goes up by one, then all the rule's prefix rules are placed, however many; a short rule throws after the shift; the expanded list is left alone |
| TupleSpace.TupleSpace5tpl.RaiseAllMaps | src/algorithms/TupleSpace5tpl.cpp:211-213 | every map raises its indices from `oldIndex` on |
| TupleSpace.TupleSpace5tpl.RuleRemoved | src/algorithms/TupleSpace5tpl.cpp:227-236 | every map drops the rules of the index and lowers the indices above it; the expanded list is left alone. This models two corrections (see Findings): the index update lowers `minIndex` with the indices, which `decrementIndex` as written does not do, and the removal goes through the intended `Map.Remove`, which unlinks the rules of the index without freeing the rules after them in the bucket |
| TupleSpace.TupleSpace5tpl.Reset | src/algorithms/TupleSpace5tpl.cpp:238-243 | no maps, an empty expanded list with `expandMinIdx` reset, no count towards the next checkpoint |
| TupleSpace.NewEmptyMap | src/algorithms/TupleSpace5tpl.cpp:34-35 | a new map of the tuple and capacity, with no rule and `minIndex` at `noRuleIsMatching()` |
| TupleSpace.FindResponsible | src/algorithms/TupleSpace5tpl.cpp:24-30 | the loop finds the first responsible map |
| TupleSpace.ExpansionWf | src/algorithms/TupleSpace5tpl.cpp:74-80 | every prefix rule of an expansion is well formed and carries the index |
| TupleSpace.MinEntryAppend | src/algorithms/TupleSpace5tpl.cpp:106 | appending an entry lowers `expandMinIdx` to its index when smaller |
| TupleSpace.PlacedAgrees | src/algorithms/TupleSpace5tpl.cpp:96-114 | the steps of a rule set place the prefix rules that the rule set's definition says |
| TupleSpace.EntriesAgree | src/algorithms/TupleSpace5tpl.cpp:96-114 | the steps of a rule set append the entries that the rule set's definition says |
| TupleSpace.TakenAgrees | src/algorithms/TupleSpace5tpl.cpp:96-114 | the steps take the first n rules exactly when each of them is accepted |
| TupleSpace.SortByMinIndex | src/algorithms/TupleSpace5tpl.cpp:117 | the maps sorted by `minIndex` as insertions into an ordered list; the union of rules stays |
| TupleSpace.SearchMaps | src/algorithms/TupleSpace5tpl.cpp:141-147 | the pruned loop over the maps gives the least matching index of all maps, or `noRuleIsMatching()` |
| TupleSpace.SearchExpanded | src/algorithms/TupleSpace5tpl.cpp:151-164 | the expanded list is searched only while the best is above `expandMinIdx`, and its first match is taken when smaller |
| TupleSpace.RaiseMap | include/algorithms/tuples/DataTupleSpace5tpl.hpp:238-248 | one map raises its indices; the others are untouched |
| TupleSpace.RemoveFromMap | src/algorithms/TupleSpace5tpl.cpp:230-232 | one map drops the index and lowers the indices above it; the others are untouched |
| HiCuts.OverlapsMeaning | include/algorithms/DataHiCuts.hpp:41-43 | `overlaps` is symmetric, and on non-empty ranges holds exactly when a value lies in both |
| HiCuts.Extend | include/algorithms/DataHiCuts.hpp:45-48 | the extended range reaches down to the smaller minimum and up to the larger maximum, each taken from one of the two |
| HiCuts.ExtendIsHull | include/algorithms/DataHiCuts.hpp:45-48 | the extended range is the least range holding every value of both |
| HiCuts.ExtendExample | test/AlgDataHiCuts5tpl.cpp:53-76 | the four calls of the extend test: [17, 30] by [30, 20000] gives [17, 20000]; [30, 20000] by [0, 0xFFFFFFFF] gives [0, 0xFFFFFFFF]; [2, 16] by [2, 16] stays [2, 16]; [2, 16] by the extended [17, 20000] gives [2, 20000] |
| HiCuts.InsideMeaning | include/algorithms/DataHiCuts.hpp:62-64 | when a range meets the box, `inside` holds exactly when the other range covers its part of the box |
| HiCuts.MatchInBoxOverlaps | include/algorithms/hicuts/DataHiCuts2tpl.hpp:23-29 | a rule matching a header of the box overlaps the box |
| HiCuts.InsideShadows | include/algorithms/hicuts/DataHiCuts2tpl.hpp:31-34 | a rule inside another within the box matches a header of the box only where the other also matches |
| HiCuts.FirstIndex | src/algorithms/hicuts/DataHiCuts2tpl.cpp:169-178 | the index of the first matching rule, or none exactly when no rule matches |
| HiCuts.Overlapping | src/algorithms/hicuts/DataHiCuts2tpl.cpp:156-166 | the rules overlapping the box, in order; a rule is kept exactly when it overlaps |
| HiCuts.OverlappingSnoc | src/algorithms/hicuts/DataHiCuts2tpl.cpp:160-165 | one more input rule is appended to the kept ones exactly when it overlaps the box |
| HiCuts.OverlappingKeepsFirstMatch | src/algorithms/hicuts/DataHiCuts2tpl.cpp:156-166 | for a header of the box, keeping only the overlapping rules leaves its first match unchanged |
| HiCuts.FirstIndexSnoc | src/algorithms/hicuts/DataHiCuts2tpl.cpp:171-178 | the first match of a list with a rule appended is the list's, or else the new rule when it matches |
| HiCuts.Pruned | src/algorithms/hicuts/DataHiCuts2tpl.cpp:78-91 | what `removeRedundancy` keeps is at most the rules it started with |
| HiCuts.Without | src/algorithms/hicuts/DataHiCuts2tpl.cpp:84-89 | the inner pass keeps, in order, the rules not inside the higher one |
| HiCuts.WithoutMembers | src/algorithms/hicuts/DataHiCuts2tpl.cpp:84-89 | a rule survives the inner pass exactly when it is not inside the higher one |
| HiCuts.WithoutKeepsFirstMatch | src/algorithms/hicuts/DataHiCuts2tpl.cpp:84-89 | for a header of the box, dropping the rules inside an earlier one leaves the first match unchanged |
| HiCuts.FirstIndexAppend | src/algorithms/hicuts/DataHiCuts2tpl.cpp:171-178 | the first match of a concatenation is the first list's, or else the second's |
| HiCuts.PrunedKeepsFirstMatch | src/algorithms/hicuts/DataHiCuts2tpl.cpp:78-91 | for a header of the box, `removeRedundancy` keeps the first match |
| HiCuts.PrunedHasNoShadowed | src/algorithms/hicuts/DataHiCuts2tpl.cpp:78-91 | after `removeRedundancy` no kept rule is inside an earlier kept rule within the box |
| HiCuts.PruneStepUnshadowed | src/algorithms/hicuts/DataHiCuts2tpl.cpp:80-90 | one outer step keeps both invariants: no kept rule inside an earlier one, no remaining rule inside a kept one |
| HiCuts.PrunedSubset | src/algorithms/hicuts/DataHiCuts2tpl.cpp:78-91 | every kept rule was one of the rules |
| HiCuts.RowZero | src/algorithms/hicuts/DataHiCuts2tpl.cpp:220-224 | the inner loop counts nothing exactly when every later check overlaps |
| HiCuts.PairsZero | src/algorithms/hicuts/DataHiCuts2tpl.cpp:219-225 | no disjoint pair is counted exactly when every two checks overlap |
| HiCuts.PairsBound | src/algorithms/hicuts/DataHiCuts2tpl.cpp:219-225 | the count is at most one per pair |
| HiCuts.CountDisjunctPairs | src/algorithms/hicuts/DataHiCuts2tpl.cpp:212-230 | two counts, one per dimension, each the number of rule pairs whose checks do not overlap |
| HiCuts.EraseStep | src/algorithms/hicuts/DataHiCuts2tpl.cpp:85-86 | erasing a rule inside the higher one keeps the inner pass's state |
| HiCuts.KeepStep | src/algorithms/hicuts/DataHiCuts2tpl.cpp:87-88 | moving past a rule not inside the higher one keeps the inner pass's state |
| HiCuts.EraseWithin | src/algorithms/hicuts/DataHiCuts2tpl.cpp:81-89 | the inner pass erases exactly the later rules inside the higher one |
| HiCuts.TrieNode.constructor | include/algorithms/hicuts/DataHiCuts2tpl.hpp:72-76 | a leaf over the two boxes, with no rules and no cut |
| HiCuts.TrieNode.RuleAmount | include/algorithms/hicuts/DataHiCuts2tpl.hpp:82 | the number of rules of the node |
| HiCuts.TrieNode.SetRules | src/algorithms/hicuts/DataHiCuts2tpl.cpp:156-166 | keeps, in order, exactly the given rules that overlap the node's box; nothing else changes |
| HiCuts.TrieNode.RemoveRedundancy | src/algorithms/hicuts/DataHiCuts2tpl.cpp:78-91 | the rules become the pruned list, which keeps every header's first match and holds no shadowed rule |
| HiCuts.TrieNode.EraseInside | src/algorithms/hicuts/DataHiCuts2tpl.cpp:81-89 | the rules after `higher` that lie inside it are erased |
| HiCuts.TrieNode.CalcPieceSize | src/algorithms/hicuts/DataHiCuts2tpl.cpp:93-109 | the piece is the box size over the number of cuts, rounded down; a zero piece becomes 1 and is reported |
| HiCuts.TrieNode.Cut | src/algorithms/hicuts/DataHiCuts2tpl.cpp:111-144 | after the piece size, `amount` children are made, child c over piece c of the cut dimension and the whole other one, each holding the node's rules that overlap it |
| HiCuts.TrieNode.AddChild | src/algorithms/hicuts/DataHiCuts2tpl.cpp:121-143 | one pass of the child loop: child c over its box, with the rules that overlap it |
| HiCuts.TrieNode.SpaceMeasure | src/algorithms/hicuts/DataHiCuts2tpl.cpp:146-154 | the children's rule counts plus one less than the number of children, in unsigned 32-bit arithmetic |
| HiCuts.TrieNode.Search | src/algorithms/hicuts/DataHiCuts2tpl.cpp:168-209 | equals the lookup: at a leaf the first matching rule; at an inner node the child's answer, none for an empty child, and the three errors in the source's order |
| HiCuts.AddMod | src/algorithms/hicuts/DataHiCuts2tpl.cpp:150-153 | adding after a 32-bit wrap-around is adding before it |
| HiCuts.CutRuleSumBound | src/algorithms/hicuts/DataHiCuts2tpl.cpp:141-150 | after a cut the children hold together at most `amount` times their parent's rules |
| HiCuts.RuleSumBound | src/algorithms/hicuts/DataHiCuts2tpl.cpp:149-151 | children holding at most m rules each hold at most m times their number together |
| HiCuts.PieceContains | src/algorithms/hicuts/DataHiCuts2tpl.cpp:126-197 | a value of the box lies in the piece that `search` computes for it |
| HiCuts.PieceEndFits | src/algorithms/hicuts/DataHiCuts2tpl.cpp:126-127 | a piece below `amount` ends inside the box when the pieces fit, without a wrap |
| HiCuts.CutClassifies | src/algorithms/hicuts/DataHiCuts2tpl.cpp:111-209 | for a header of the box, searching a freshly cut node gives the node's own first match, unless the header falls past the last piece, where the search fails |
| HiCuts.LeafSearch | src/algorithms/hicuts/DataHiCuts2tpl.cpp:169-178 | the leaf loop reports the first match |
| HiCuts.DivBounds | src/algorithms/hicuts/DataHiCuts2tpl.cpp:96-97 | the piece size q of n over d has q·d ≤ n < (q + 1)·d, and is 0 exactly when n < d |
| LinearSearch.Inserted | src/algorithms/linear/LinearSearch4tpl.cpp:85-103 | the rule set one longer, with the new entry at the index and every later one moved up |
| LinearSearch.Removed | src/algorithms/linear/LinearSearch4tpl.cpp:123-138 | the rule set one shorter, every entry after the index moved down |
| LinearSearch.RemovedInserted | src/algorithms/linear/LinearSearch4tpl.cpp:76-149 | removing the rule just added at an index gives back the old rules |
| LinearSearch.Hits | src/algorithms/Data5tpl.cpp:16-27 | entry k tells whether rule k matches the header |
| LinearSearch.FirstMatchHits | src/algorithms/linear/LinearSearch4tpl.cpp:43 | the rule set's match is the first rule whose hit is true |
| LinearSearch.InsertedFirstMatchSome | src/algorithms/linear/LinearSearch4tpl.cpp:76-114 | when the old rules have a first match, the match after `ruleAdded` is `InsertedMatch` of it |
| LinearSearch.InsertedFirstMatchNone | src/algorithms/linear/LinearSearch4tpl.cpp:76-114 | when no old rule matches, the match after `ruleAdded` is the new rule when it matches, else none |
| LinearSearch.InsertedFirstMatch | src/algorithms/linear/LinearSearch4tpl.cpp:76-114 | after `ruleAdded` a header's first match is `InsertedMatch` of its old one: the old one when that lies before the index, the new rule from the index on when it matches, and otherwise the old one moved up by one |
| LinearSearch.RemovedFirstMatch | src/algorithms/linear/LinearSearch4tpl.cpp:116-149 | after `ruleRemoved` a header's first match is its old one before the index, an old later one moved down by one, and the next match after the index when the removed rule was the first |
| LinearSearch.Slots | src/algorithms/linear/LinearSearch4tpl.cpp:12-22 | after n rules are converted, slot k below n holds rule k's conversion and the later slots are empty |
| LinearSearch.LinearSearch4tpl.constructor | include/algorithms/linear/LinearSearch4tpl.hpp:26 | no rules, one header per checkpoint, no header counted |
| LinearSearch.LinearSearch4tpl.HeaderProcessed | src/algorithms/linear/LinearSearch4tpl.cpp:53-60 | the count and checkpoints are those of one `HeaderCheckpoints.Step`: the count goes up by one; on reaching the setting it is handed to a checkpoint and starts from 0 |
| LinearSearch.LinearSearch4tpl.SetParameters | src/algorithms/linear/LinearSearch4tpl.cpp:62-74 | the first value sets the headers per checkpoint, 0 becoming 1; no value leaves the setting |
| LinearSearch.LinearSearch4tpl.SetRules | src/algorithms/linear/LinearSearch4tpl.cpp:12-27 | a fresh rule set of the rule count holds every rule's conversion in order, then a checkpoint of 0 is set; the first rule that does not convert fails, with the earlier slots filled and the later ones empty |
| LinearSearch.LinearSearch4tpl.ClassifyTuple | src/algorithms/linear/LinearSearch4tpl.cpp:42-47 | one converted header gets the index of the first matching rule, or `noRuleIsMatching()` |
| LinearSearch.LinearSearch4tpl.Classify | src/algorithms/linear/LinearSearch4tpl.cpp:29-51 | each header is converted and reported as the index of the first matching rule or `noRuleIsMatching()`; it fails exactly when some header does not convert, at the first such header, after the indices of the headers before it; the count and checkpoints are `HeaderCheckpoints.After` of the indices written. Uses the five-tuple rule set and the corrected Converter5tpl (see Left out and Findings) |
| LinearSearch.LinearSearch4tpl.RuleAdded | src/algorithms/linear/LinearSearch4tpl.cpp:76-114 | succeeds exactly for an index up to the size, a non-empty rule that converts and no empty old slot; the new rules are the old ones with the rule inserted at the index, followed by a checkpoint of 0, and every old slot has been moved out. A failure at an empty old slot keeps the old rule set with every slot before that one emptied and the others as they were |
| LinearSearch.LinearSearch4tpl.RuleRemoved | src/algorithms/linear/LinearSearch4tpl.cpp:116-149 | succeeds exactly for an index below the size and no empty slot among the others; the new rules are the old ones without the one at the index, followed by a checkpoint of 0, and every old slot but the removed one has been moved out. A failure at an empty slot keeps the old rule set with every slot before that one, except the removed one, emptied and the others as they were |
| LinearSearch.LinearSearch4tpl.Reset | src/algorithms/linear/LinearSearch4tpl.cpp:151-154 | the header count becomes 0 and the rules are dropped; the setting stays |
| LinearSearch.MoveRule | src/algorithms/linear/LinearSearch4tpl.cpp:90-132 | `swapRule` then `setRule`: a held rule moves to the new slot and leaves an empty one; an empty old slot moves nothing |
| LinearSearch.Inserting | src/algorithms/linear/LinearSearch4tpl.cpp:85-103 | a fresh rule set holding the old rules with the new one at the index, exactly when no old slot is empty; the old slots are all moved out on success, and up to the first empty one on failure |
| LinearSearch.Removing | src/algorithms/linear/LinearSearch4tpl.cpp:123-141 | a fresh rule set holding the old rules without the one at the index, exactly when no other slot is empty; the other old slots are all moved out on success, and up to the first empty one on failure |
| LinearSearch.CopyInserting | src/algorithms/linear/LinearSearch4tpl.cpp:86-100 | the copy loop moves every old rule in order, skipping the new slot at the index, and empties each old slot it moves; it stops at the first empty old slot, the slots from there on as they were |
| LinearSearch.CopyRemoving | src/algorithms/linear/LinearSearch4tpl.cpp:124-138 | the copy loop moves every old rule but the one at the index in order, and empties each old slot it moves; it stops at the first empty slot, the removed one and the slots from there on as they were |
| LinearSearch.ClassifiedSnoc | src/algorithms/linear/LinearSearch4tpl.cpp:37-50 | one more header line extends the reported indices by its first match |
| LuaConfiguration.AtomsFitMoreFields | src/configuration/LuaConfigurator.cpp:23-25 | defining one more header field keeps every atom as wide as its field |
| LuaConfiguration.AtomsFitAddAtom | src/configuration/LuaConfigurator.cpp:37-48 | an atom as wide as the next field, added to the last rule, keeps every atom as wide as its field |
| LuaConfiguration.Configuration.constructor | include/data/Configuration.hpp:25 | an empty program path and no benchmarks |
| LuaConfiguration.Configuration.SetProgRelativePath | include/data/Configuration.hpp:28 | sets the path; the benchmarks stay |
| LuaConfiguration.Configuration.Last | src/configuration/LuaConfigurator.cpp:13 | `back()` is one of the benchmarks, and under the invariant keeps distributions and seeds in step and atoms on their fields |
| LuaConfiguration.LuaConfigurator.constructor | include/configuration/LuaConfigurator.hpp:28 | the configurator works on the given configuration |
| LuaConfiguration.LuaConfigurator.WithLast | src/configuration/LuaConfigurator.cpp:12-211 | the benchmarks with only the last replaced |
| LuaConfiguration.LuaConfigurator.AddBenchmark | src/configuration/LuaConfigurator.cpp:7-9 | one more benchmark with the defaults of `Benchmark()`; the earlier ones stay |
| LuaConfiguration.LuaConfigurator.SetCaption | src/configuration/LuaConfigurator.cpp:12-14 | only the last benchmark's caption changes |
| LuaConfiguration.LuaConfigurator.SetAlgFilename | src/configuration/LuaConfigurator.cpp:15-17 | only the last benchmark's algorithm file changes |
| LuaConfiguration.LuaConfigurator.AddAlgParameter | src/configuration/LuaConfigurator.cpp:19-21 | only the last benchmark's parameters change, by one appended value |
| LuaConfiguration.LuaConfigurator.AddFieldStructure | src/configuration/LuaConfigurator.cpp:23-25 | only the last benchmark's field list changes, by one appended width |
| LuaConfiguration.LuaConfigurator.AddRule | src/configuration/LuaConfigurator.cpp:28-31 | only the last benchmark's rules change, by one appended empty rule |
| LuaConfiguration.LuaConfigurator.CurrentAtomWidth | src/configuration/LuaConfigurator.cpp:37-41 | the width of the field at the position of the last rule's next atom |
| LuaConfiguration.LuaConfigurator.WithAtom | src/configuration/LuaConfigurator.cpp:48 | the last benchmark with one atom appended to its last rule and nothing else changed; an atom of the current width keeps every atom on its field |
| LuaConfiguration.LuaConfigurator.AddRuleAtomExact | src/configuration/LuaConfigurator.cpp:43-49 | appends an exact atom of the current field's width to the last rule; nothing else changes |
| LuaConfiguration.LuaConfigurator.AddRuleAtomRange | src/configuration/LuaConfigurator.cpp:59-65 | appends a range atom of the current field's width to the last rule; nothing else changes |
| LuaConfiguration.LuaConfigurator.AddRuleAtomPrefix | src/configuration/LuaConfigurator.cpp:75-81 | appends a prefix atom of the current field's width to the last rule; nothing else changes |
| LuaConfiguration.LuaConfigurator.AddHeader | src/configuration/LuaConfigurator.cpp:92-95 | only the last benchmark's headers change, by one appended empty header |
| LuaConfiguration.LuaConfigurator.AddHeaderValue | src/configuration/LuaConfigurator.cpp:97-100 | only the last header of the last benchmark changes, by one appended value |
| LuaConfiguration.LuaConfigurator.SetRandomHeaderAmount | src/configuration/LuaConfigurator.cpp:108-113 | the amount is set; header generation is switched on by a positive amount and otherwise left as it was; nothing else changes |
| LuaConfiguration.LuaConfigurator.SetRandomHeaderOutput | src/configuration/LuaConfigurator.cpp:115-117 | only the last benchmark's output flag changes |
| LuaConfiguration.LuaConfigurator.PushBackRandomDistribution | src/configuration/LuaConfigurator.cpp:119-123 | the distribution and its seed are appended together; nothing else changes |
| LuaConfiguration.LuaConfigurator.AddDistributionConstant | src/configuration/LuaConfigurator.cpp:125-129 | appends a constant distribution with seed 0; nothing else changes |
| LuaConfiguration.LuaConfigurator.AddDistributionUniform | src/configuration/LuaConfigurator.cpp:137-142 | appends a uniform distribution over the bounds with the seed; nothing else changes |
| LuaConfiguration.LuaConfigurator.AddDistributionNormal | src/configuration/LuaConfigurator.cpp:151-156 | appends a normal distribution with the seed; nothing else changes |
| LuaConfiguration.LuaConfigurator.AddDistributionLognormal | src/configuration/LuaConfigurator.cpp:165-170 | appends a log-normal distribution with the seed; nothing else changes |
| LuaConfiguration.LuaConfigurator.AddDistributionExponential | src/configuration/LuaConfigurator.cpp:179-182 | appends an exponential distribution with the seed; nothing else changes |
| LuaConfiguration.LuaConfigurator.AddDistributionCauchy | src/configuration/LuaConfigurator.cpp:184-188 | appends a Cauchy distribution with the seed; nothing else changes |
| LuaConfiguration.LuaConfigurator.AddDistributionPareto | src/configuration/LuaConfigurator.cpp:196-200 | appends a Pareto distribution with the seed; nothing else changes |
| LuaConfiguration.LuaConfigurator.SetAmountRuns | src/configuration/LuaConfigurator.cpp:209-211 | only the last benchmark's run count changes |
| LuaConfiguration.LuaConfigurator.MakeFullRelativePath | src/configuration/LuaConfigurator.cpp:213-215 | the program path followed by the postfix |
| LuaConfiguration.SetUpFirstOfTwo | test/LuaConfigurator.cpp:19-35 | on an empty configuration, the test's first `addBenchmark`, `setCaption`, `setAlgFilename` and three `addAlgParameter` calls leave exactly one benchmark: the default one with caption "first benchmark", file "file/one.so" and parameters 0.4, 42.0, 123.456 |
| LuaConfiguration.TwoBenchmarks | test/LuaConfigurator.cpp:12-65 | after the test's calls the first benchmark has caption "first benchmark", file "file/one.so" and parameters 0.4, 42.0, 123.456, and the second has caption "second benchmark", file "file/sub/two.so" and parameter 99.11, all other settings at their defaults: setting up the second leaves the first as it was set |
| LuaConfiguration.RelativePaths | test/LuaConfigurator.cpp:222-237 | an empty path leaves the postfix; a set path is put in front |
| MemSnapshots.Updated | src/metering/memory/MemSnapshot.cpp:5-12 | each counter grows by its value, modulo 2^64; the allocation maximum never falls, covers the new allocation, and changes only to it |
| MemSnapshots.Merged | src/metering/memory/MemSnapshot.cpp:14-22 | the other group's maximum is added, then its counters as by `update`; the result stays consistent |
| MemSnapshots.MergedIntoZero | src/metering/memory/MemSnapshot.cpp:14-22 | merging a consistent group into an empty one gives that group |
| MemSnapshots.UpdatedNegative | test/MemSnapshot.cpp:46-53 | a negative allocation change, written as its 64-bit two's complement, lowers the allocation and keeps the maximum |
| MemSnapshots.UpdateSequenceExample | test/MemSnapshot.cpp:34-65 | the three updates of the test give its counters |
| MemSnapshots.MemGroupSnapshot.constructor | include/memory/MemSnapshot.hpp:22 | every counter 0 |
| MemSnapshots.MemGroupSnapshot.Update | src/metering/memory/MemSnapshot.cpp:5-12 | the counters become the updated ones |
| MemSnapshots.MemGroupSnapshot.Merge | src/metering/memory/MemSnapshot.cpp:14-22 | a missing other group throws and changes nothing; otherwise the counters become the merged ones |
| MemSnapshots.MemSnapshot.constructor | include/memory/MemSnapshot.hpp:55 | the given header count and one empty group |
| MemSnapshots.MemSnapshot.Copy | src/metering/memory/MemSnapshot.cpp:24-30 | the same header count and a copy of every group |
| MemSnapshots.MemSnapshot.GroupAdd | include/memory/MemSnapshot.hpp:59 | one more empty group; the header count stays |
| MemSnapshots.MemSnapshot.GroupUpdate | src/metering/memory/MemSnapshot.cpp:32-37 | an id past the groups throws and changes nothing; otherwise only that group is updated |
| MemManagement.Live | src/metering/memory/MemManager.cpp:6-8 | the group and the counters of each registered object, in registration order |
| MemManagement.Find | src/metering/memory/MemManager.cpp:18 | the position of a registered object, or none exactly when it is not registered |
| MemManagement.ApplyLive | src/metering/memory/MemManager.cpp:34-37 | the groups after the checkpoint loop, as many as before |
| MemManagement.MergeAllAccBytes | src/metering/memory/MemManager.cpp:51-58 | the total's accessed bytes are the groups' accessed bytes added up, modulo 2^64 |
| MemManagement.ApplyLiveGroup | src/metering/memory/MemManager.cpp:34-37 | a group stored at a checkpoint is that group with the counters of its own live objects applied in order |
| MemManagement.CheckpointKeepsGroupView | src/metering/memory/MemManager.cpp:27-104 | `getPastRecordByGroup` on the stored record gives what `getCurrentByGroup` gave just before the checkpoint |
| MemManagement.UpdateAllConsistent | src/metering/memory/MemManager.cpp:60-63 | applying objects' counters keeps a group's maximum at or above its allocation |
| MemManagement.ResultFor | src/metering/memory/MemManager.cpp:112-124 | one entry per snapshot in which the group existed, in each of the six categories |
| MemManagement.ResultForEverySnapshot | src/metering/memory/MemManager.cpp:112-124 | a group present in every snapshot has one entry per snapshot, in order, each the snapshot's header count and the group's value |
| MemManagement.ExistedAll | src/metering/memory/MemManager.cpp:114 | a group present in every snapshot existed in all of them |
| MemManagement.ApplyLiveTo | src/metering/memory/MemManager.cpp:34-37 | the loop applies every registered object's counters to its group; the header count stays |
| MemManagement.MergeInto | src/metering/memory/MemManager.cpp:56-92 | the loop merges every group in order |
| MemManagement.UpdateInto | src/metering/memory/MemManager.cpp:60-81 | the loop applies every live object's counters, only those of the given group when one is given |
| MemManagement.MemManager.constructor | include/metering/memory/MemManager.hpp:47 | one group, id 0, no objects, no history, a snapshot at 0 headers |
| MemManagement.MemManager.Reg | src/metering/memory/MemManager.cpp:6-14 | a new object joins the current group and its allocation is added to that group's maximum; an object already registered keeps its group |
| MemManagement.MemManager.Dereg | src/metering/memory/MemManager.cpp:16-25 | a registered object's access counters, without allocation, go into its group and it is removed; an unknown object changes nothing |
| MemManagement.MemManager.Checkpoint | src/metering/memory/MemManager.cpp:27-44 | the header count grows, modulo 2^32; the snapshot with every live object applied is stored, and the copy taken before becomes current |
| MemManagement.MemManager.GroupCreate | include/metering/memory/MemManager.hpp:64 | a new empty group is added and becomes current |
| MemManagement.MemManager.GroupSwitch | src/metering/memory/MemManager.cpp:46-49 | an existing id becomes current; any other id throws and changes nothing |
| MemManagement.MemManager.GetCurrentTotal | src/metering/memory/MemManager.cpp:51-64 | every group merged, then every live object's counters applied |
| MemManagement.MemManager.GetCurrentByGroup | src/metering/memory/MemManager.cpp:66-82 | the group merged into an empty one, then the counters of its live objects; an id past the groups throws |
| MemManagement.MemManager.GetPastRecordTotal | src/metering/memory/MemManager.cpp:84-93 | every group of the stored snapshot merged; an index past the history throws |
| MemManagement.MemManager.GetPastRecordByGroup | src/metering/memory/MemManager.cpp:95-104 | the group of the stored snapshot merged into an empty one; throws for an id past the groups or an index past the history, and also for a group the snapshot does not hold (see Findings) |
| MemManagement.MemManager.GetMemResultGroups | src/metering/memory/MemManager.cpp:106-127 | one result per group, each its values over the snapshots in which it existed |
| MemManagement.MemManager.Reset | src/metering/memory/MemManager.cpp:129-135 | back to the state of a new manager |
| MemManagement.PastRecordGuardGap | src/metering/memory/MemManager.cpp:95-104 | a reachable state in which the source's checks pass for group 1 of snapshot 0, which holds only group 0 |
| HeaderCheckpoints.Step | src/algorithms/linear/LinearSearch4tpl.cpp:53-60 | one `headerProcessed`: the new count plus the header count of the checkpoint it sets, if any, is the old count plus one; at most one checkpoint is set; under a positive setting the new count is below the setting |
| HeaderCheckpoints.Steps | src/algorithms/linear/LinearSearch4tpl.cpp:53-60 | n calls of `headerProcessed`: the checkpoints set earlier are kept in front, and at most one new checkpoint is appended per header |
| HeaderCheckpoints.After | src/algorithms/linear/LinearSearch4tpl.cpp:53-60 | the closed form after n headers sets at most n checkpoints |
| HeaderCheckpoints.Repeat | src/algorithms/linear/LinearSearch4tpl.cpp:53-60 | n checkpoints that each hold the setting |
| HeaderCheckpoints.FormStep | src/algorithms/linear/LinearSearch4tpl.cpp:53-60 | one `headerProcessed` after t headers in remainder form gives the remainder form of t + 1 |
| HeaderCheckpoints.AfterBelowForm | src/algorithms/linear/LinearSearch4tpl.cpp:53-60 | from a count below the setting, the closed form is the remainder form of the count plus the headers |
| HeaderCheckpoints.AfterStepBelow | src/algorithms/linear/LinearSearch4tpl.cpp:53-60 | from a count below the setting, the closed form after n + 1 headers is one `headerProcessed` after that of n |
| HeaderCheckpoints.AfterStepAbove | src/algorithms/linear/LinearSearch4tpl.cpp:53-60 | from a count at or above the setting, the closed form after n + 1 headers is one `headerProcessed` after that of n |
| HeaderCheckpoints.AfterStep | src/algorithms/linear/LinearSearch4tpl.cpp:53-60 | the closed form after n + 1 headers is one `headerProcessed` after the closed form after n |
| HeaderCheckpoints.StepsNext | src/algorithms/linear/LinearSearch4tpl.cpp:53-60 | n + 1 calls of `headerProcessed` are one call after n calls |
| HeaderCheckpoints.AfterIsSteps | src/algorithms/linear/LinearSearch4tpl.cpp:53-60 | n calls of `headerProcessed` leave the count of the closed form and append its checkpoints: from a count below the setting the remainder of count plus n, with one checkpoint of the setting per full quotient; from a count at or above it, a first checkpoint of that count plus one, then the same for the remaining headers |
| HeaderCheckpoints.AfterCounted | src/algorithms/linear/LinearSearch4tpl.cpp:53-60 | no header is lost: the checkpoints and the remaining count add up to the old count plus the new headers; the remaining count is below the setting once a header was counted |
| HeaderCheckpoints.AfterCheckpoints | src/algorithms/linear/LinearSearch4tpl.cpp:53-60 | every checkpoint holds the setting, except a first one that hands over a count the setting was lowered under |
| MemTrace.Add | include/metering/memory/MemTraceData.hpp:10-14 | `size_t` addition: below 2^64, the plain sum when that fits, one wrap otherwise |
| MemTrace.Mul | include/metering/memory/MemTraceData.hpp:21 | `size_t` multiplication: below 2^64, the plain product when that fits |
| MemTrace.AddNegative | include/metering/memory/MemTraceData.hpp:19 | adding the 64-bit two's complement of k takes k away |
| MemTrace.RepeatedIsMul | include/metering/memory/MemTraceData.hpp:19-21 | `alloc<T>(n)` counts the same as n calls of `alloc<T>()`, with the wrap-around |
| MemTrace.MemTraceData.constructor | include/metering/memory/MemTraceData.hpp:16 | every counter 0, and writes within accesses |
| MemTrace.MemTraceData.Alloc | include/metering/memory/MemTraceData.hpp:19 | only the allocation grows, by the size, modulo 2^64 |
| MemTrace.MemTraceData.AllocN | include/metering/memory/MemTraceData.hpp:21 | only the allocation grows, by amount times the size, modulo 2^64 |
| MemTrace.MemTraceData.Read | include/metering/memory/MemTraceData.hpp:24 | the accessed bytes grow by the size and the access count by one; writes stay within accesses while nothing wraps |
| MemTrace.MemTraceData.Write | include/metering/memory/MemTraceData.hpp:26 | the access and the write counters grow alike; writes stay within accesses while nothing wraps |
| MemTrace.MemTraceData.ReadN | include/metering/memory/MemTraceData.hpp:29 | the accessed bytes grow by amount times the size and the access count by the amount |
| MemTrace.MemTraceData.WriteN | include/metering/memory/MemTraceData.hpp:31 | the access and the write counters grow alike by amount times the size and the amount |
| Histograms.LessIsStrictOrder | include/data/Statistics.hpp:108-110 | `<` is irreflexive, asymmetric and transitive, and total on bins with different ids, as `std::sort` needs |
| Histograms.Bumped | include/data/Statistics.hpp:117 | the same bin, whose counter grows by one and so becomes larger, or wraps to 0 at 2^32 |
| Histograms.CopyBins | src/evaluation/Statistics.cpp:18-22 | the copy holds the bins in order |
| Histograms.AppendFromLargest | src/evaluation/Statistics.cpp:29-33 | the result with the sorted bins' pairs appended from the last to the first |
| Histograms.HistogramBin.constructor | include/data/Statistics.hpp:104 | the given id and a count of 0 |
| Histograms.HistogramBin.Copy | include/data/Statistics.hpp:105 | the same id and count |
| Histograms.HistogramBin.PreIncrement | include/data/Statistics.hpp:117 | the bin is bumped |
| Histograms.HistogramBin.PostIncrement | include/data/Statistics.hpp:119 | the bin is bumped and its old value returned |
| Histograms.BinExamples | test/Statistics.cpp:91-131 | the increment and ordering tests: two increments count 2; bins compare by counter first, then by descending id; equal ids are equal bins |
| Histograms.InsertBin | src/evaluation/Statistics.cpp:25-26 | one more bin, the others kept: the multiset grows by it |
| Histograms.SortBins | src/evaluation/Statistics.cpp:25-26 | a permutation of the bins |
| Histograms.InsertBinAscending | src/evaluation/Statistics.cpp:25-26 | inserting a bin of a new id into an ascending list keeps it ascending |
| Histograms.SortBinsAscending | src/evaluation/Statistics.cpp:25-26 | bins with distinct ids sort into strictly ascending order |
| Histograms.Reversed | src/evaluation/Statistics.cpp:29 | the sequence read from its end |
| Histograms.SortedReportOrder | src/evaluation/Statistics.cpp:16-34 | each bin reported once, by descending counter, and by ascending id among equal counters |
| Histograms.Histogram.constructor | src/evaluation/Statistics.cpp:3-8 | bins with ids 0 to numberBins - 1, each counting 0 |
| Histograms.Histogram.Occured | src/evaluation/Statistics.cpp:10-14 | bin id is bumped; an id past the bins throws and changes nothing |
| Histograms.Histogram.GetSorted | src/evaluation/Statistics.cpp:16-34 | the result extended by the pairs of the sorted report |
| Histograms.Histogram.GetUnsorted | src/evaluation/Statistics.cpp:36-50 | the result extended by every bin's pair in id order |
| Histograms.ValidBinsDistinct | src/evaluation/Statistics.cpp:3-8 | the bins of a histogram have distinct ids |
| Series.MinValue | include/data/Statistics.hpp:22-28 | the smallest value, one of the series; an empty series throws, and only it |
| Series.MaxValue | include/data/Statistics.hpp:30-36 | the largest value, one of the series; an empty series throws, and only it |
| Series.Sort | include/data/Statistics.hpp:48-49 | the copy is a permutation of the series |
| Series.SortSorted | include/data/Statistics.hpp:49 | the copy is sorted |
| Series.SortOfSorted | include/data/Statistics.hpp:49 | a sorted series is its own sorted copy |
| Series.SortCounts | include/data/Statistics.hpp:48-49 | sorting does not change how many values lie below or at a bound |
| Series.SortedRank | include/data/Statistics.hpp:50 | in a sorted series at most k values lie below the one at k, and at least k + 1 are at most it |
| Series.MedianAsWritten | include/data/Statistics.hpp:43-51 | the source's median: a value of the series; an empty series throws |
| Series.Median | include/data/Statistics.hpp:43-51 | the lower median at (size - 1) / 2 of the sorted copy: a value of the series; an empty series throws |
| Series.MedianIsMedian | include/data/Statistics.hpp:43-51 | at most (size - 1) / 2 values lie below the median and at least (size + 1) / 2 are at most it |
| Series.MedianAsWrittenRank | include/data/Statistics.hpp:50 | the source's value has at most size / 2 - 1 values below it and at least size / 2 at most it |
| Series.MedianAgrees | include/data/Statistics.hpp:45-50 | the source's median and the lower median agree on one value and on every series of even size |
| Series.MedianAsWrittenOddSize | include/data/Statistics.hpp:50 | of three increasing values the source reports the smallest, which has one value at most it where a median needs two |
| Series.MedianAsWrittenOfSorted | include/data/Statistics.hpp:48-50 | on a sorted series of two or more values the source reports the value at size / 2 - 1 |
| Series.MinMaxExample | test/Statistics.cpp:39-65 | the integer series test has minimum -666 and maximum 0xAFFE |
| Series.RankInExample | test/Statistics.cpp:39-65 | in the integer series test only 4 has the rank of the source's median |
| Series.MedianExample | test/Statistics.cpp:39-65 | the source's median of the integer series test is 4 |
| Evaluation.CompareIndices | src/evaluation/Evaluator.cpp:191-209 | true exactly when every run produced the same indices as the first, and so without runs |
| Evaluation.Initial | src/evaluation/Statistics.cpp:3-8 | ids 0 to n - 1, each counting 0 |
| Evaluation.Tally | src/evaluation/Evaluator.cpp:216-219 | every bin keeps its id |
| Evaluation.TallyCounts | src/evaluation/Evaluator.cpp:211-222 | each bin counts the indices that hit it, modulo 2^32 |
| Evaluation.CreateHistogram | src/evaluation/Evaluator.cpp:211-222 | nothing for no rules; otherwise it fails exactly when a counted index lies past the bins, else the sorted report of the tallied bins is appended |
| Evaluation.HistogramOfIndices | src/evaluation/Evaluator.cpp:211-222 | every rule reported once, by descending count, each count how often the rule was matched |
| Evaluation.Column | src/evaluation/Evaluator.cpp:47-68 | one value per run holding the category |
| Evaluation.ColumnOfEqualRuns | src/evaluation/Evaluator.cpp:47-68 | when every run has the first's categories, a column holds that category of each run, in run order |
| Evaluation.AddRun | src/evaluation/Evaluator.cpp:51-65 | the first run records the names and opens one column per category; a later run appends its value to each column |
| Evaluation.CreateChronoMeasurements | src/evaluation/Evaluator.cpp:44-69 | the first run's category names, and per category the values of every run in order |
| Evaluation.Sub | src/evaluation/Evaluator.cpp:141-142 | `size_t` subtraction: undone by adding back, and the plain difference without a wrap |
| Evaluation.ReadCounters | src/evaluation/Evaluator.cpp:141-142 | the read bytes and reads, which with the writes give the accesses back; the plain differences when writes stay within accesses |
| Evaluation.EvaluateIndices | src/evaluation/Evaluator.cpp:241-252 | the runs are compared; only when all match are the first run's indices kept and the histogram built, with the rule count cast to 32 bits |
| FilesysHelper.LastSlash | src/frontend/FilesysHelper.cpp:8 | the position of the last slash, or none exactly when there is no slash |
| FilesysHelper.ParsePath | src/frontend/FilesysHelper.cpp:5-21 | an empty path gives "." and "cate"; a path without a slash gives "." and itself; otherwise the two parts give the path back, the first ending in its last slash and the second holding none |
| FilesysHelper.ParsePathUnique | src/frontend/FilesysHelper.cpp:8-12 | a prefix ending in a slash followed by a name without one is the split of their concatenation |
| FilesysHelper.ParsePathPlainExamples | test/FilesysHelper.cpp:10-26 | "" gives "." and "cate"; "program" gives "." and "program" |
| FilesysHelper.ParsePathExamples | test/FilesysHelper.cpp:14-38 | "/" gives "/" and ""; "path/program" gives "path/" and "program" |
| PyText.Then | tools/classbench_convert.py:72-77 | a step that raised ends the run with its text; otherwise the texts are joined and the second step's outcome is kept |
| PyText.StripLeft | tools/classbench_convert.py:37 | a suffix of the text that starts with a character that is not white space |
| PyText.StripLeftSpaces | tools/classbench_convert.py:37 | what is dropped on the left is white space |
| PyText.StripRight | tools/classbench_convert.py:37 | a prefix of the text that ends with a character that is not white space |
| PyText.StripRightSpaces | tools/classbench_convert.py:37 | what is dropped on the right is white space |
| PyText.Strip | tools/classbench_convert.py:37 | no white space at either end |
| PyText.StripTrimmed | tools/classbench_convert.py:37 | text without white space at either end is its own strip |
| PyText.StripKeepsInner | tools/classbench_convert.py:37 | strip keeps exactly the text from the first to the last character that is not white space |
| PyText.Split | tools/classbench_convert.py:17-21 | at least one piece |
| PyText.JoinSplit | tools/classbench_convert.py:17-21 | the pieces joined with the separator give the text back |
| PyText.SplitJoin | tools/classbench_convert.py:17-21 | pieces without the separator, joined and split, come back |
| PyText.SplitHead | tools/classbench_convert.py:16-17 | the first piece of a split is the whole text when it holds no separator, else the text before the first separator |
| PyText.SplitBlanks | tools/classbench_convert.py:38 | at least one piece; a text that starts with no blank has a non-empty first piece |
| PyText.SplitBlanksJoin | tools/classbench_convert.py:38 | non-empty blank-free fields joined by single spaces split back into those fields |
| PyText.EachLineStops | tools/classbench_convert.py:36-48 | once a line has raised, the later lines change nothing |
| PyText.EachLineText | tools/classbench_convert.py:36-48 | a run without an exception is every line's text in order, and no line raised |
| PyText.WriteLines | tools/classbench_convert.py:36-61 | the loop's output is that of every line's step in order, up to the first that raises |
| PyText.DigitValue | tools/classbench_convert.py:5-17 | a digit value is below 16 |
| PyText.Int | tools/classbench_convert.py:5-17 | `int()` gives the parsed value exactly when the text is a number, and otherwise raises the invalid-literal error |
| PyText.DigitsOfNaturalText | tools/classbench_convert.py:47 | reading the decimal digits of a number gives it |
| PyText.DecimalRoundTrip | tools/classbench_convert.py:47 | formatting a number with "%d" and reading it back with `int()` gives it |
| ClassbenchConvert.ParseIp | tools/classbench_convert.py:4-8 | raises exactly when the mask is not a number; a mask of 32 gives an exact address, any other a prefix, both keeping the address and the mask text |
| ClassbenchConvert.ParsePort | tools/classbench_convert.py:10-14 | raises when a bound is not a number; equal bounds give an exact port, different ones a range, keeping the bound texts |
| ClassbenchConvert.ParseProt | tools/classbench_convert.py:16-17 | the hexadecimal number of the whole field when it holds no '/', else of the text before its first '/' |
| ClassbenchConvert.ProtocolMaskDiscarded | tools/classbench_convert.py:16-17 | the protocol mask after the '/' is never read |
| ClassbenchConvert.Tail | tools/classbench_convert.py:41 | the text without its first character |
| ClassbenchConvert.SplitSubnet | tools/classbench_convert.py:20-43 | the unpacking succeeds exactly when the subnet has one '/', and its two parts give the subnet back |
| ClassbenchConvert.ParseSubnet | tools/classbench_convert.py:41-44 | a subnet unpacked, then classified by `parse_ip` |
| ClassbenchConvert.AtomAt | tools/classbench_convert.py:41-47 | the fifth statement of the rule body writes a protocol atom |
| ClassbenchConvert.AtomsUpToSteps | tools/classbench_convert.py:40-48 | the statements run in order: without an exception they write their atoms, with one the atoms before it and its error |
| ClassbenchConvert.RuleAtomsInOrder | tools/classbench_convert.py:40-48 | a rule converts without an exception exactly when each of its five fields does, and then has five atoms in field order |
| ClassbenchConvert.SameAtomsAlike | tools/classbench_convert.py:40-48 | statements that yield the same atoms run alike |
| ClassbenchConvert.MarkerIgnored | tools/classbench_convert.py:41 | the marker character of the source subnet is dropped unread |
| ClassbenchConvert.RuleLine | tools/classbench_convert.py:36-48 | a line raises exactly when the atoms of its stripped and split fields do |
| ClassbenchConvert.RuleLineOfFields | tools/classbench_convert.py:36-48 | a line of fields separated by single spaces writes one call with the atoms of those fields, in order |
| ClassbenchConvert.FieldsSplit | tools/classbench_convert.py:37-38 | fields without white space joined by single spaces are found again by strip and split |
| ClassbenchConvert.WriteRules | tools/classbench_convert.py:32-49 | the rule loop: one call per line, in order, stopping at the first exception |
| ClassbenchConvert.TraceLine | tools/classbench_convert.py:57-61 | a trace line raises exactly when it has fewer than five fields |
| ClassbenchConvert.TraceLineOfFields | tools/classbench_convert.py:57-61 | five or more fields: the first five are written verbatim and in order; fewer raise the format error |
| ClassbenchConvert.WriteTrace | tools/classbench_convert.py:52-62 | the trace loop: one header call per line, stopping at the first exception |
| ClassbenchConvert.RegisterOneLine | tools/classbench_convert.py:66-69 | a registration is one line when the comment is |
| ClassbenchConvert.FooterSplit | tools/classbench_convert.py:65-69 | the footer is four registrations, one per declared algorithm, with the same comment and number of runs, and a blank line before the HiCuts one |
| ClassbenchConvert.Convert | tools/classbench_convert.py:72-77 | the header, the rules, the trace and the footer in this order; an exception in the rules ends the output after the rules written so far, one in the trace after the rules and the trace written so far, with that error |
| ClassbenchMergeHeaders.Parts | tools/classbench_mergeheaders.py:14-18 | at least one piece |
| ClassbenchMergeHeaders.Keys | tools/classbench_mergeheaders.py:20-21 | one index, or the exception reading it, per line |
| ClassbenchMergeHeaders.FieldTexts | tools/classbench_mergeheaders.py:26-34 | one field text per line |
| ClassbenchMergeHeaders.LineAt | tools/classbench_mergeheaders.py:14-34 | position a of the indices and of the field texts belongs to line a |
| ClassbenchMergeHeaders.MergeWithEmpty | tools/classbench_mergeheaders.py:13 | an empty file on either side gives an empty output |
| ClassbenchMergeHeaders.WriteFields | tools/classbench_mergeheaders.py:26-34 | the inner loop writes every field after the index, each followed by a space |
| ClassbenchMergeHeaders.ReadLines | tools/classbench_mergeheaders.py:14-21 | each line's index (or its exception) and its field text |
| ClassbenchMergeHeaders.MergeWalk | tools/classbench_mergeheaders.py:13-43 | the two-pointer loop writes what the walk from the first lines writes, and ends within the total number of lines |
| ClassbenchMergeHeaders.MergeHeaders | tools/classbench_mergeheaders.py:3-43 | the lines of both files read, then walked |
| ClassbenchMergeHeaders.Values | tools/classbench_mergeheaders.py:20-21 | the values of readable indices |
| ClassbenchMergeHeaders.Matches | tools/classbench_mergeheaders.py:23-43 | the pairs of positions the walk combines lie within both files |
| ClassbenchMergeHeaders.MatchesSound | tools/classbench_mergeheaders.py:23-43 | each combined pair has equal indices, and the pairs advance on both sides |
| ClassbenchMergeHeaders.MatchesComplete | tools/classbench_mergeheaders.py:23-43 | with strictly increasing indices on both sides, every pair of lines with equal indices is combined |
| ClassbenchMergeHeaders.CommonKeysAscending | tools/classbench_mergeheaders.py:23-43 | with strictly increasing indices, the indices written are exactly those common to both files, in ascending order |
| ClassbenchMergeHeaders.WalkOfReadable | tools/classbench_mergeheaders.py:13-43 | when every index is readable, the walk writes the combined lines of the matched pairs and raises nothing |
| ClassbenchMergeHeaders.MergeOfSorted | tools/classbench_mergeheaders.py:3-43 | two files with readable, strictly increasing indices merge without an exception into one line per common index, ascending, each the index, the left fields and the right fields |
| ClassbenchMergeRules.PastedLines | tools/classbench_mergerules.py:14-21 | one line per position both files have, each the two stripped lines with a space between |
| ClassbenchMergeRules.TerminatedSnoc | tools/classbench_mergerules.py:18 | writing one more line appends it and its newline |
| ClassbenchMergeRules.TerminatedJoin | tools/classbench_mergerules.py:18 | lines each followed by a newline are the lines and an empty last piece joined by newlines |
| ClassbenchMergeRules.MergeRules | tools/classbench_mergerules.py:4-21 | the output is every pasted line followed by a newline |
| ClassbenchMergeRules.TerminatedPrefix | tools/classbench_mergerules.py:14-21 | writing line k after the first k lines |
| ClassbenchMergeRules.StrippedReadLine | tools/classbench_mergerules.py:15-16 | a line as `readlines` gives it, stripped, holds no newline |
| ClassbenchMergeRules.MergedLines | tools/classbench_mergerules.py:4-21 | reading the output back line by line gives the pasted lines, in order |
| ClassbenchMergeRules.LongerFileCut | tools/classbench_mergerules.py:14 | lines past the end of the shorter file are never read |
| ClassbenchStructure.Widths | tools/classbench_structure.py:23-27 | one "32" per field, none for a count below one |
| ClassbenchStructure.JoinSnoc | tools/classbench_structure.py:23-27 | joining one more piece appends the separator and the piece |
| ClassbenchStructure.WriteWidths | tools/classbench_structure.py:22-27 | the loop writes the widths separated by ", " |
| ClassbenchStructure.HiCutsBinth | tools/classbench_structure.py:19 | the bin threshold written for HiCuts reads back as ten times the number of fields |
| ClassbenchStructure.WriteHeader | tools/classbench_structure.py:15-28 | the four algorithm declarations, a blank line, and the structure with its widths |
| ClassbenchStructure.AtomOfSubnet | tools/classbench_structure.py:4-45 | a mask reading 32 gives an exact atom, another number a prefix atom with that mask, and a mask that is not a number raises |
| ClassbenchStructure.CollectedSteps | tools/classbench_structure.py:42-48 | the fields are handled in order: without an exception each yields its atom; with one, the atoms before it and its error |
| ClassbenchStructure.CollectedStop | tools/classbench_structure.py:42-48 | once a field has raised, the later fields change nothing |
| ClassbenchStructure.WriteAtoms | tools/classbench_structure.py:42-48 | the field loop writes the atom texts separated by ", ", stopping at the first exception |
| ClassbenchStructure.RuleCallsStop | tools/classbench_structure.py:36-50 | once a line has raised, the later lines change nothing |
| ClassbenchStructure.RuleCallsSnoc | tools/classbench_structure.py:36-50 | one more line adds the call its fields produce |
| ClassbenchStructure.WriteRuleCalls | tools/classbench_structure.py:36-50 | the line loop writes one call per line, stopping at the first exception |
| ClassbenchStructure.WriteRules | tools/classbench_structure.py:31-51 | the rule section |
| ClassbenchStructure.RuleCallOfParts | tools/classbench_structure.py:40-50 | a call raises exactly when a field does, and otherwise lists one atom per field, in field order |
| ClassbenchStructure.RuleOfFields | tools/classbench_structure.py:36-50 | a line of space-separated fields converts without an exception exactly when every field does, and then lists one atom per field, in order |
| ClassbenchStructure.WriteHeaderFields | tools/classbench_structure.py:65-70 | every field but the first, separated by ", " |
| ClassbenchStructure.WriteHeaderCalls | tools/classbench_structure.py:60-72 | one header call per line |
| ClassbenchStructure.WriteTrace | tools/classbench_structure.py:54-73 | the trace section, which cannot raise |
| ClassbenchStructure.TraceOfFields | tools/classbench_structure.py:60-72 | a header line drops its first field, the rule index, and keeps the others in order |
| ClassbenchStructure.RegisterOneLine | tools/classbench_structure.py:77-80 | a registration is one line |
| ClassbenchStructure.FooterSplit | tools/classbench_structure.py:76-80 | the footer is four registrations with the fixed labels, one per declared algorithm, with the same number of runs |
| ClassbenchStructure.FooterOneLines | tools/classbench_structure.py:76-80 | no footer line holds a newline |
| ClassbenchStructure.Structure | tools/classbench_structure.py:83-88 | the header, the rules, the trace and the footer in this order; an exception in the rules ends the output where it was raised |
| CountTuples.PrefixLength | tools/count_tuples.py:7 | the number after a field's first '/'; a field without '/' raises IndexError |
| CountTuples.LineTuple | tools/count_tuples.py:6-7 | a line has a tuple exactly when it has two fields whose prefix lengths read; the first field's error comes first |
| CountTuples.GatherContents | tools/count_tuples.py:5-8 | the loop runs without an exception exactly when every line is read, and the set then holds exactly the values read |
| CountTuples.GatherFirstError | tools/count_tuples.py:5-8 | the exception is that of the first line not read |
| CountTuples.GatherBound | tools/count_tuples.py:5-8 | at most as many tuples as lines |
| CountTuples.RepeatedLine | tools/count_tuples.py:8 | a line repeated at the end adds nothing |
| CountTuples.GatherStops | tools/count_tuples.py:5-8 | once a line has raised, the later lines change nothing |
| CountTuples.PrefixOfSubnet | tools/count_tuples.py:7 | the prefix length of a subnet is the number after its '/' |
| CountTuples.LineOfFields | tools/count_tuples.py:6-7 | only the first two fields decide a line's tuple |
| CountTuples.SummaryTellsCount | tools/count_tuples.py:11 | different tuple counts give different summary lines |
| CountTuples.GatherLines | tools/count_tuples.py:5-8 | the loop gives the set of the lines' tuples, or the first exception |
| CountTuples.CountTuples | tools/count_tuples.py:3-11 | the set of distinct tuples, and a summary with their number exactly when no line raised |

## Left out

Inputs excluded by a `requires`, where the source has undefined behaviour or does not terminate:

- GenericAtoms.RangeToPrefixes: requires `maxValue < 2^width`, which excludes every range that does not fit the width. The loop at src/generics/RuleAtom.cpp:8-16 ends on some of those ranges and never ends on others: for width 1 it splits [0,2] into two prefixes, but on [0,3] it finds no prefix and repeats forever.
- HiCuts.CountDisjunctPairs: requires at least one rule. On an empty list the source's loop bound `rules.cend() - 1` points before the start of the vector.
- HiCuts.TrieNode.CalcPieceSize: requires `amount > 0`, because the source divides by it. The source's division is a floating-point one: `Range::size()` is the `double` `(max - min) + 1.0` (include/algorithms/DataHiCuts.hpp:52), and the quotient is truncated into the `unsigned int` `partSize`. The model divides integers instead. This is exact at these magnitudes: the size is at most 2^32, so the rounding error of the quotient stays below the gap of 1/amount to the next integer, and truncation gives the integer quotient. One input is not covered: with `amount == 1` on a full box [0, 0xFFFFFFFF], the quotient 4294967296.0 does not fit `unsigned int`, and the source's conversion is undefined behaviour. The model instead sets the piece to 2^32 and reports no underrun.
- HiCuts.TrieNode.Cut: requires cut dimension 1 or 2 and a positive piece size. For any other dimension the source pushes null children.
- HiCuts.TrieNode.SpaceMeasure: requires every child to be non-null, because the source dereferences each one.
- TupleSpace.ConvertRuleToMany: requires each of the first five atoms to be expandable (`Expandable`, `AtomsExpandable`). Its range maximum must lie below 2^width, as `RangeToPrefixes` demands (`RangeFits`). Each prefix length must also fit its field's 32, 32, 16, 16 or 8 bits (`PairsFit`), so that the prefix constructor's shift stays inside the field.
- TupleSpace.TupleSpace5tpl.SetRules: requires the same expandability of every rule.
- TupleSpace.TupleSpace5tpl.RuleAdded: requires the same expandability of the added rule.
- TupleSpaceData.Map.Lookup: requires a positive capacity. The source reduces the hash modulo the capacity.
- Data5tpl.RuleSet.Match: requires every slot of the rule array to be set. The source dereferences each slot.
- BitvectorClassifier.Bitvector5tpl.Classify: the first-match property is proved only for rule sets in which every stored range has `min <= max` (`ProperRules`). The source builds the same projections for other rules too.
- LuaConfiguration.LuaConfigurator.AddRuleAtomExact: requires a benchmark with a rule that still has a free field. Otherwise the source reads `rules.back()` of an empty vector or `fieldStructure` past its end (src/configuration/LuaConfigurator.cpp:33-41).
- LuaConfiguration.LuaConfigurator.AddRuleAtomRange: requires the same as `AddRuleAtomExact`.
- LuaConfiguration.LuaConfigurator.AddRuleAtomPrefix: requires the same as `AddRuleAtomExact`.
- LuaConfiguration.LuaConfigurator.AddHeaderValue: requires a benchmark with a header. The source calls `back()` on the vectors.
- LuaConfiguration.LuaConfigurator.SetCaption: requires a benchmark, because the source calls `back()` on the benchmark vector.
- The other setters of the last benchmark require a benchmark for the same reason. These are `SetAlgFilename`, `AddAlgParameter`, `AddFieldStructure`, `AddRule`, `AddHeader`, `SetRandomHeaderAmount`, `SetRandomHeaderOutput`, the seven `AddDistribution*` methods and `SetAmountRuns`.
- Evaluation.CreateChronoMeasurements: requires no run to have more categories than run 0. With more, the source writes `measurements[categoryCounter++]` past the table (src/evaluation/Evaluator.cpp:64).
- DimensionRanges.DimensionRanges.constructor: requires `min <= max`, so the domain is a proper range that the segment partition can cover, and a bitvector size below 2^32 (an `unsigned int`).
- Bitvectors.Bitvector.constructor: requires a size below 2^32 (an `unsigned int`).
- Bitvectors.Bitvector.Assign: requires two distinct bitvectors not to share storage, which the source's ownership guarantees.
- Bitvectors.Bitvector.AndAssign: requires the same as `Assign`.
- Bitvectors.Bitvector.OrAssign: requires the same as `Assign`.
- Data5tpl.RuleSet.constructor: requires a size below 2^32 (an `unsigned int`).
- MemManagement.MemManager.Checkpoint: requires the header count below 2^32 (an `unsigned int`).
- MemManagement.MemManager.GroupCreate: requires the group count to stay below 2^32 (an `unsigned int`).
- MemSnapshots.MemSnapshot.constructor: requires the header count below 2^32 (an `unsigned int`).
- Evaluation.CreateHistogram: requires the rule count below 2^32 (an `unsigned int`).
- BitvectorClassifier.Bitvector5tpl.RuleAdded: requires the rule count plus one below 2^32, the `unsigned int` range of the projections' bitvector size.
- BitvectorClassifier.Bitvector5tpl.ConvertRuleAndStore: requires the same bound on the rule count.
- LinearSearch.LinearSearch4tpl.RuleAdded: requires fewer than 2^32 - 1 rules and an index below 2^32. With 2^32 - 1 rules the source's `sizeOldRuleSet + 1` wraps to 0 (src/algorithms/linear/LinearSearch4tpl.cpp:85), and the new rule set of size 0 is then written past its end.
- LinearSearch.Inserting: requires the same bound on the rule count.
- LinearSearch.LinearSearch4tpl.RuleRemoved: requires fewer than 2^32 rules, the `uint32_t` range of the size.
- LinearSearch.Removing: requires the same bound on the rule count.
- MemTrace.MemTraceData: its sizes and amounts are below 2^64 (`size_t`). The ordering invariant of the counters holds only while no counter has wrapped.

Behaviour the model states differently from the source:

- BitvectorClassifier.Bitvector5tpl.Classify: uses the corrected five-tuple conversion (see Findings), so protocols 256..65535 are refused rather than truncated.
- TupleSpace.TupleSpace5tpl.Classify: uses the same corrected conversion.
- TupleSpace.TupleSpace5tpl.SetRules: stores the protocol atom through the same corrected conversion.
- TupleSpace.TupleSpace5tpl.RuleRemoved: uses the corrected `decrementIndex`, which keeps each map's `minIndex` a lower bound (see Findings). The source's `decrementIndex` leaves it stale. It also removes through the intended `Map.Remove`, not the source's `remove`, which frees the removed rule's successors (see Findings).
- TupleSpaceData.Map.Remove: unlinks each node with the index and frees only that node. The source's `delete` of the unlinked node also frees, through `~PrefixRule`, every node after it in the bucket (include/algorithms/tuples/DataTupleSpace5tpl.hpp:274-278), leaving the bucket pointing at freed rules.
- LinearSearch.LinearSearch4tpl.Classify: converts through the corrected five-tuple converter and matches five atoms. The source's Converter4tpl (`convertRule` at src/algorithms/common/Converter4tpl.cpp:130-155, `convertHeader` at src/algorithms/common/Converter4tpl.cpp:157-173) has four 32-bit fields and needs at least four values. So the model refuses four-value headers and third or fourth fields above 16 bits, and it matches a fifth atom the source ignores. Converter4tpl and Data4tpl are not part of this model.
- LinearSearch.LinearSearch4tpl.SetRules: converts rules with the same five-tuple converter, under the same difference.
- BitvectorClassifier.Bitvector5tpl.constructor: include/algorithms/bitvector/Bitvector5tpl.hpp is not part of this model. The initial setting of one header per checkpoint and the count of 0 follow the sibling classifier's constructor (include/algorithms/bitvector/Bitvector2tpl.hpp:48).
- The classifiers' `checkpoints` field: the header counts the classifier hands to `_mmanager->checkpoint`, in order. What the memory manager does with each count is `MemManagement.MemManager.Checkpoint`, modelled separately. The two are not connected. The HiCuts5tpl classifier (src/algorithms/HiCuts5tpl.cpp), with its own checkpoint calls, is not part of this model; only the HiCuts trie nodes are.
- BitvectorClassifier.Bitvector5tpl.SetParameters: requires every parameter to be a natural below 2^32, as the source casts its `double` values to `uint32_t`; `CountersOk` keeps the setting and the count in that range.
- LinearSearch.LinearSearch4tpl.SetParameters: requires every parameter to be a natural below 2^32. The source takes `double` values and casts them to `uint32_t`; negative, fractional and larger values are not modelled.
- TupleSpace.TupleSpace5tpl.SetParameters: requires the same of its parameters, for the same reason.
- BitvectorClassifier.Bitvector5tpl.ConstructProjections: builds each field's range map with its own loop over the rules. The source runs one loop that adds every rule to all five maps; the final maps are the same.
- MemManagement.MemManager.GetPastRecordByGroup: also checks that the group existed in the chosen snapshot (see Findings).
- MemManagement.MemManager: the live items (`_mtraces`, an `unordered_map`) are a sequence in registration order. Where wrapped sizes make the group's `allocMax` depend on iteration order, the model fixes that order.
- TupleSpace.TupleSpace5tpl.constructor: takes the hash-map capacity as a parameter. The source leaves the field uninitialised.
- Series.MedianAsWritten: models the source's median. Series.Median is the corrected one (see Findings).

Effects and features outside the model:

- Console output and file I/O of the Python tools: input files are sequences of lines and the output stream is a string. Command-line handling in their `__main__` blocks is left out.
- tools/classbench_genrules.py: random rule generation.
- The FilesysHelper functions `checkFileExists`, `readFile`, `copyFile`, `checkDirExists` and `checkAndSetDir`: file-system I/O.
- The chrono measurements inside the classifiers' `setRules`, `classify`, `ruleAdded` and `ruleRemoved`: clocks.
- The error messages `setParameters` writes to `std::cerr` when it replaces an invalid setting (src/algorithms/linear/LinearSearch4tpl.cpp:69, src/algorithms/TupleSpace5tpl.cpp:190 and :200, src/algorithms/bitvector/Bitvector5tpl.cpp:18): console output. The replaced values themselves are modelled.
- The `std::string` overloads of `addRuleAtom*`, `addHeaderValue` and `addDistribution*`: they parse text into a GMP value and then do what the numeric overloads do.
- The `double` parameters of the distributions (mean, standard deviation and the others): modelled as naturals, or as `real` for the algorithm parameters, and never computed with.
- Evaluator `generateBenchmarkInfo`, `createChronoStatistics`, `calcChronoRelMean` and `createMemoryStatistics`, and Series `calcMeanValue`, `calcStdDev` and sum: floating point.
- HiCuts `TrieNode::build` and `Trie::construct`: they depend on `rand()` and a `double` space factor.
- The order in which count_tuples prints its set: CPython's set order is unspecified. The model states the set and the count.
- The Lua interpreter, the benchmark executor, the shell, `main`, the algorithm factory, the HTML/CSV output, the chronographs, the random number and header generators, the configuration ids and the memory-trace operator wrappers: foreign calls, clocks, randomness, I/O and orchestration.
- The 2-, 4- and 10-tuple variants of the converters, data, tuple space, bitvector, HiCuts and linear search: they share the logic of the modelled arity.

## Findings

| source | as written | input that shows it | evidently intended | confidence | as-written member | corrected member |
|---|---|---|---|---|---|---|
| src/algorithms/Converter5tpl.cpp:96-179 | the 8-bit protocol field is tested with `fits_ushort_p` (16 bits) and then cast to `uint8_t` | rule atom Exact(256) becomes Exact(0); header [0,0,0,0,262] becomes protocol 6 | refuse values of 256 and above, as the "(8 bits)" messages say | not executed | Converter5tpl.ConvertRuleAtom8AsWrittenAccepts256, Converter5tpl.ConvertHeaderAsWrittenTruncates | Converter5tpl.ConvertHeaderRefuses262, Converter5tpl.ConvertedAtomMatchesRange |
| include/algorithms/tuples/DataTupleSpace5tpl.hpp:253-268 | `decrementIndex` lowers the rule indices but never `_minIndex`, and `remove` only raises it | map A holds rules 0 and 2, map B holds rule 1, and rules 1 and 2 match a header. After removing rule 0, pruning on A's stale `minIndex` 1 returns 1 instead of 0 | lower `_minIndex` together with the indices, so it stays a lower bound | not executed | TupleSpace.StaleMinIndexMissesMatch | TupleSpace.PrunedMinIsLeast |
| include/algorithms/tuples/DataTupleSpace5tpl.hpp:274-278 | `remove` deletes the unlinked node, and `~PrefixRule` deletes `next`, freeing every successor still in the bucket | bucket [r0, r1], remove index 0: the live list becomes empty instead of [r1] | unlink the node and free only that node | not executed | TupleSpaceData.RemoveAsWrittenFreesSuccessors | TupleSpaceData.Map.Remove |
| src/metering/memory/MemManager.cpp:95-104 | `getPastRecordByGroup` indexes a snapshot's groups with the id without checking that the group existed then | a group created after the chosen snapshot | return an error when the group is not in that snapshot | not executed | MemManagement.PastRecordGuardGap | MemManagement.MemManager.GetPastRecordByGroup |
| include/data/Statistics.hpp:50 | the median of more than one value is `sorted[size/2 - 1]`, for odd sizes too | [1,2,3] gives 1 | the middle element (2) for odd sizes | not executed | Series.MedianAsWrittenOddSize | Series.MedianIsMedian |
