/**
 * The five-tuple bitvector classifier: each stored rule contributes one
 * range per header field, each field has a range map whose bitvectors mark
 * the rules covering a segment, and a header is classified by and-ing the
 * five bitvectors it falls into and taking the first set bit.
 */
module BitvectorClassifier {
  import opened BitOps
  import opened Results
  import opened Bitvectors
  import opened DimensionRanges
  import G = GenericAtoms
  import C = Converter5tpl
  import D = Data5tpl
  import HC = HeaderCheckpoints

  // The messages of the exceptions thrown here.
  const ShortRuleError: string := "Bitvector5tpl: Not enough rule checks for five-tuple algorithms in given rule found."
  const UnsetLookupError: string := "Bitvector5tpl: One of the lookup structures is not set."
  const AddPositionError: string := "Bitvector5tpl: Added a new rule at a position out of bounds of the existing classifier."
  const RemovePositionError: string := "Bitvector5tpl: Index for rule to remove is outside bounds of the existing classifier."

  /** The largest value of header field k: two 32-bit addresses, two 16-bit ports, an 8-bit protocol. */
  function DomainMax(k: nat): nat
    requires k < 5
  {
    [0xFFFF_FFFF, 0xFFFF_FFFF, 0xFFFF, 0xFFFF, 0xFF][k]
  }

  /** Header field k. */
  function Field(h: D.HeaderTuple, k: nat): nat
    requires k < 5
  {
    [h.addrSrc, h.addrDest, h.portSrc, h.portDest, h.protocol][k]
  }

  /** `RuleStorageItem`: the five ranges a stored rule checks. */
  datatype StoredRule = StoredRule(check1: Range, check2: Range, check3: Range, check4: Range, check5: Range)

  /** The range a stored rule checks in field k. */
  function FieldRange(r: StoredRule, k: nat): Range
    requires k < 5
  {
    [r.check1, r.check2, r.check3, r.check4, r.check5][k]
  }

  /** Every range of a stored rule holds the corresponding header field. */
  predicate StoredMatch(r: StoredRule, h: D.HeaderTuple)
  {
    Contains(r.check1, h.addrSrc) && Contains(r.check2, h.addrDest) &&
    Contains(r.check3, h.portSrc) && Contains(r.check4, h.portDest) &&
    Contains(r.check5, h.protocol)
  }

  /** Every stored range has its minimum at most its maximum. */
  predicate ProperRules(rules: seq<StoredRule>)
  {
    forall i, k :: 0 <= i < |rules| && 0 <= k < 5 ==> Proper(FieldRange(rules[i], k))
  }

  /**
   * The range of atom k of a rule: the whole field domain for a wildcard,
   * otherwise `toRange` with both bounds cast to the field type.
   */
  function AtomRange(a: G.RuleAtom, k: nat): (r: Range)
    requires k < 5
    ensures r.min <= DomainMax(k) && r.max <= DomainMax(k)
  {
    if G.IsWildcard(a) then Range(0, DomainMax(k))
    else
      var (lo, hi) := G.ToRange(a);
      Range(lo % (DomainMax(k) + 1), hi % (DomainMax(k) + 1))
  }

  /** The first five atoms of a rule as a stored rule. */
  function StoreAtoms(rule: G.Rule): StoredRule
    requires |rule| >= 5
  {
    StoredRule(AtomRange(rule[0], 0), AtomRange(rule[1], 1), AtomRange(rule[2], 2),
      AtomRange(rule[3], 3), AtomRange(rule[4], 4))
  }

  /** A wildcard covers its whole field; another atom whose bounds fit the field keeps them. */
  lemma AtomRangeMeaning(a: G.RuleAtom, k: nat, v: nat)
    requires k < 5 && v <= DomainMax(k)
    ensures G.IsWildcard(a) ==> Contains(AtomRange(a, k), v)
    ensures !G.IsWildcard(a) && G.ToRange(a).0 <= DomainMax(k) && G.ToRange(a).1 <= DomainMax(k) ==>
      (Contains(AtomRange(a, k), v) <==> G.ToRange(a).0 <= v <= G.ToRange(a).1)
  {
    if !G.IsWildcard(a) {
      var (lo, hi) := G.ToRange(a);
      var m := DomainMax(k) + 1;
      if lo < m && hi < m {
        SmallMod(lo, m);
        SmallMod(hi, m);
      }
    }
  }

  lemma FieldRangeOfStoreAtoms(rule: G.Rule, k: nat)
    requires |rule| >= 5 && k < 5
    ensures FieldRange(StoreAtoms(rule), k) == AtomRange(rule[k], k)
  {
  }

  /** Positions below the size are accepted by a vector of that size. */
  lemma PositionBelowSize(n: nat, p: nat)
    requires p < n
    ensures ValidPosition(Zeroes(n), p)
  {
    var s := StorageSize(n);
    assert p < s * 32;
  }

  /**
   * The segments of field k after `constructProjections` has added the first
   * i stored rules, with bitvectors of n bits: rule t sets bit t.
   */
  function Project(rules: seq<StoredRule>, k: nat, n: nat, i: nat): (segs: seq<Segment>)
    requires k < 5 && i <= |rules| && i <= n < Limit32
    ensures Sized(segs, n)
    decreases i
  {
    if i == 0 then [Segment(Range(0, DomainMax(k)), Zeroes(n))]
    else
      var prev := Project(rules, k, n, i - 1);
      PositionBelowSize(n, i - 1);
      SizedPositions(prev, n, i - 1);
      AddRangeSized(prev, FieldRange(rules[i - 1], k), i - 1, n);
      AddRangeSegs(prev, FieldRange(rules[i - 1], k), i - 1)
  }

  /** With proper ranges the projection of field k partitions its domain. */
  lemma {:induction false} ProjectionPartition(rules: seq<StoredRule>, k: nat, n: nat, i: nat)
    requires k < 5 && i <= |rules| && i <= n < Limit32 && ProperRules(rules)
    ensures PartitionFrom(Project(rules, k, n, i), 0, DomainMax(k))
    decreases i
  {
    if i > 0 {
      var prev := Project(rules, k, n, i - 1);
      ProjectionPartition(rules, k, n, i - 1);
      PositionBelowSize(n, i - 1);
      SizedPositions(prev, n, i - 1);
      assert Proper(FieldRange(rules[i - 1], k));
      AddRangePartition(prev, FieldRange(rules[i - 1], k), i - 1, 0, DomainMax(k));
    }
  }

  /** With proper ranges every segment of a projection is proper and every field value lies in one. */
  lemma ProjectionCovers(rules: seq<StoredRule>, k: nat, n: nat, i: nat, v: nat)
    requires k < 5 && i <= |rules| && i <= n < Limit32 && ProperRules(rules) && v <= DomainMax(k)
    ensures AllProper(Project(rules, k, n, i)) && Lookup(Project(rules, k, n, i), v).Some?
  {
    ProjectionPartition(rules, k, n, i);
    PartitionCovers(Project(rules, k, n, i), 0, DomainMax(k), v);
  }

  /**
   * With proper ranges, the bitvector that the projection of field k gives
   * value v has bit t set exactly when t is one of the added rules and its
   * range k holds v.
   */
  lemma {:induction false} ProjectionBits(rules: seq<StoredRule>, k: nat, n: nat, i: nat, v: nat, t: nat)
    requires k < 5 && i <= |rules| && i <= n < Limit32 && ProperRules(rules) && v <= DomainMax(k)
    ensures Lookup(Project(rules, k, n, i), v).Some?
    ensures BitOf(LookupWords(Project(rules, k, n, i), v), t) <==> (t < i && Contains(FieldRange(rules[t], k), v))
    decreases i
  {
    if i == 0 {
      ProjectionBitsStart(rules, k, n, v);
    } else {
      var j := i - 1;
      ProjectionBits(rules, k, n, j, v, t);
      ProjectionStepBits(rules, k, n, j, v, t);
      assert j + 1 == i;
    }
  }

  /** Adding rule i to the projection of field k sets bit i of v's bitvector exactly when its range k holds v. */
  lemma ProjectionStepBits(rules: seq<StoredRule>, k: nat, n: nat, i: nat, v: nat, t: nat)
    requires k < 5 && i < |rules| && i < n < Limit32 && ProperRules(rules) && v <= DomainMax(k)
    ensures Lookup(Project(rules, k, n, i + 1), v).Some?
    ensures BitOf(LookupWords(Project(rules, k, n, i + 1), v), t) <==>
      ((t == i && Contains(FieldRange(rules[i], k), v)) || BitOf(LookupWords(Project(rules, k, n, i), v), t))
  {
    var prev := Project(rules, k, n, i);
    var key := FieldRange(rules[i], k);
    ProjectionCovers(rules, k, n, i, v);
    PositionBelowSize(n, i);
    SizedPositions(prev, n, i);
    assert Proper(key);
    assert Project(rules, k, n, i + 1) == AddRangeSegs(prev, key, i);
    StepBits(prev, key, i, v, t);
  }

  lemma ProjectionBitsStart(rules: seq<StoredRule>, k: nat, n: nat, v: nat)
    requires k < 5 && n < Limit32 && v <= DomainMax(k)
    ensures Lookup(Project(rules, k, n, 0), v) == Some(Zeroes(n))
    ensures forall t: nat :: !BitOf(LookupWords(Project(rules, k, n, 0), v), t)
  {
    forall t: nat
      ensures !BitOf(Zeroes(n).words, t)
    {
      ZeroesHaveNoBits(n, t);
    }
  }

  /** One `addRange` of key at position p sets bit p of value v's bitvector exactly when key holds v. */
  lemma StepBits(prev: seq<Segment>, key: Range, p: nat, v: nat, t: nat)
    requires AllProper(prev) && Lookup(prev, v).Some? && Positions(prev, p) && Proper(key)
    ensures Lookup(AddRangeSegs(prev, key, p), v).Some?
    ensures BitOf(LookupWords(AddRangeSegs(prev, key, p), v), t) <==>
      ((t == p && Contains(key, v)) || BitOf(LookupWords(prev, v), t))
  {
    AddRangeLookup(prev, key, p, v);
    if Contains(key, v) {
      SetBitEffect(Lookup(prev, v).value, p, t);
    }
  }

  /** The storage words of the bitvector v falls into, or none when no segment holds v. */
  function LookupWords(segs: seq<Segment>, v: nat): seq<nat>
  {
    if Lookup(segs, v).Some? then Lookup(segs, v).value.words else []
  }

  lemma LookupSized(segs: seq<Segment>, n: nat, v: nat)
    requires Sized(segs, n) && n < Limit32
    ensures WordsFit(LookupWords(segs, v)) && |LookupWords(segs, v)| < Limit32
  {
    if Lookup(segs, v).Some? {
      var i := LookupIndex(segs, v);
      WordCountBound(n);
    }
  }

  /** The and of the five bitvectors of a header, in the order `classify` combines them. */
  function Combined(rules: seq<StoredRule>, h: D.HeaderTuple): (w: seq<nat>)
    requires |rules| < Limit32
    ensures WordsFit(w) && |w| < Limit32
  {
    var n := |rules|;
    var w0 := LookupWords(Project(rules, 0, n, n), h.addrSrc);
    var w1 := LookupWords(Project(rules, 1, n, n), h.addrDest);
    var w2 := LookupWords(Project(rules, 2, n, n), h.portSrc);
    var w3 := LookupWords(Project(rules, 3, n, n), h.portDest);
    var w4 := LookupWords(Project(rules, 4, n, n), h.protocol);
    LookupSized(Project(rules, 0, n, n), n, h.addrSrc);
    LookupSized(Project(rules, 1, n, n), n, h.addrDest);
    LookupSized(Project(rules, 2, n, n), n, h.portSrc);
    LookupSized(Project(rules, 3, n, n), n, h.portDest);
    LookupSized(Project(rules, 4, n, n), n, h.protocol);
    AndWordsFit(w0, w1);
    AndWordsFit(AndWords(w0, w1), w2);
    AndWordsFit(AndWords(AndWords(w0, w1), w2), w3);
    AndWordsFit(AndWords(AndWords(AndWords(w0, w1), w2), w3), w4);
    AndWords(AndWords(AndWords(AndWords(w0, w1), w2), w3), w4)
  }

  /** The first stored rule from index i on whose ranges all hold the header. */
  function FirstStoredFrom(rules: seq<StoredRule>, h: D.HeaderTuple, i: nat): (r: Option<nat>)
    requires i <= |rules|
    ensures r.Some? ==> (i <= r.value < |rules| && StoredMatch(rules[r.value], h) &&
      forall t :: i <= t < r.value ==> !StoredMatch(rules[t], h))
    ensures r.None? <==> forall t :: i <= t < |rules| ==> !StoredMatch(rules[t], h)
    decreases |rules| - i
  {
    if i == |rules| then None
    else if StoredMatch(rules[i], h) then Some(i)
    else FirstStoredFrom(rules, h, i + 1)
  }

  /** What `classify` reports for a match: its index, or `noBitSetInBitvector()`. */
  function IndexOrNoBit(m: Option<nat>): nat
  {
    if m.Some? then m.value else NoBitSet
  }

  /** One more header line classified: the loop invariants of `classify` carry over to it. */
  lemma ClassifiedStep(indices: seq<nat>, headers: seq<seq<nat>>, j: nat, rules: seq<StoredRule>, current: bool, x: nat)
    requires j < |headers| && |indices| == j && C.ConvertHeader(headers[j]).Ok?
    requires forall t :: 0 <= t < j ==> C.ConvertHeader(headers[t]).Ok?
    requires current ==>
      forall t :: 0 <= t < j ==> indices[t] == IndexOrNoBit(FirstStoredFrom(rules, C.ConvertHeader(headers[t]).value, 0))
    requires current ==> x == IndexOrNoBit(FirstStoredFrom(rules, C.ConvertHeader(headers[j]).value, 0))
    ensures forall t :: 0 <= t < j + 1 ==> C.ConvertHeader(headers[t]).Ok?
    ensures current ==> forall t :: 0 <= t < j + 1 ==>
      (indices + [x])[t] == IndexOrNoBit(FirstStoredFrom(rules, C.ConvertHeader(headers[t]).value, 0))
  {
  }

  /** The and of a header's five bitvectors has bit t set exactly when stored rule t matches it. */
  lemma CombinedBits(rules: seq<StoredRule>, h: D.HeaderTuple, t: nat)
    requires |rules| < Limit32 && ProperRules(rules) && D.ValidHeader(h)
    ensures BitOf(Combined(rules, h), t) <==> t < |rules| && StoredMatch(rules[t], h)
  {
    var n := |rules|;
    ProjectionBits(rules, 0, n, n, h.addrSrc, t);
    ProjectionBits(rules, 1, n, n, h.addrDest, t);
    ProjectionBits(rules, 2, n, n, h.portSrc, t);
    ProjectionBits(rules, 3, n, n, h.portDest, t);
    ProjectionBits(rules, 4, n, n, h.protocol, t);
    var w0 := LookupWords(Project(rules, 0, n, n), h.addrSrc);
    var w1 := LookupWords(Project(rules, 1, n, n), h.addrDest);
    var w2 := LookupWords(Project(rules, 2, n, n), h.portSrc);
    var w3 := LookupWords(Project(rules, 3, n, n), h.portDest);
    var w4 := LookupWords(Project(rules, 4, n, n), h.protocol);
    AndFiveBits(w0, w1, w2, w3, w4, t);
  }

  /** Bit t of the and of five bitvectors is set exactly when it is set in each. */
  lemma AndFiveBits(w0: seq<nat>, w1: seq<nat>, w2: seq<nat>, w3: seq<nat>, w4: seq<nat>, t: nat)
    ensures BitOf(AndWords(AndWords(AndWords(AndWords(w0, w1), w2), w3), w4), t) <==>
      BitOf(w0, t) && BitOf(w1, t) && BitOf(w2, t) && BitOf(w3, t) && BitOf(w4, t)
  {
    AndWordsBits(w0, w1, t);
    AndWordsBits(AndWords(w0, w1), w2, t);
    AndWordsBits(AndWords(AndWords(w0, w1), w2), w3, t);
    AndWordsBits(AndWords(AndWords(AndWords(w0, w1), w2), w3), w4, t);
  }

  /**
   * The bitvector classification of a header is the least index of a stored
   * rule whose five ranges hold it, or `noBitSetInBitvector()` when none does.
   */
  lemma ClassifyIsFirstMatch(rules: seq<StoredRule>, h: D.HeaderTuple)
    requires |rules| < Limit32 && ProperRules(rules) && D.ValidHeader(h)
    ensures FirstSetBit(Combined(rules, h)) == IndexOrNoBit(FirstStoredFrom(rules, h, 0))
  {
    var w := Combined(rules, h);
    var m := FirstStoredFrom(rules, h, 0);
    var r := FirstSetBit(w);
    if m.Some? {
      CombinedBits(rules, h, m.value);
      CombinedBits(rules, h, r);
      if r < m.value {
      } else if r > m.value {
      }
    } else if r != NoBitSet {
      CombinedBits(rules, h, r);
    }
  }

  /** The field domain holds every field of a valid header. */
  lemma HeaderInDomain(h: D.HeaderTuple, k: nat)
    requires D.ValidHeader(h) && k < 5
    ensures Field(h, k) <= DomainMax(k)
  {
    Pow2Word();
  }

  /** Field k's range map as `constructProjections` leaves it after rule i of n. */
  predicate DimensionAt(d: DimensionRanges, rules: seq<StoredRule>, k: nat, n: nat, i: nat)
    reads d
  {
    k < 5 && i <= |rules| && i <= n < Limit32 &&
    d.Valid() && d.bitvectorSize == n && d.domainMin == 0 && d.domainMax == DomainMax(k) &&
    d.ranges == Project(rules, k, n, i)
  }

  /** One `addRange` of `constructProjections`: range k of rule i sets bit i in field k's map. */
  method AddRuleRange(d: DimensionRanges, rules: seq<StoredRule>, k: nat, n: nat, i: nat)
    requires DimensionAt(d, rules, k, n, i) && i < n && i < |rules|
    modifies d
    ensures DimensionAt(d, rules, k, n, i + 1)
  {
    PositionBelowSize(n, i);
    var key := FieldRange(rules[i], k);
    var o := d.AddRange(key.min, key.max, i);
  }

  /** The field-k map of `constructProjections`: range k of every rule t, added in order, sets bit t. */
  method BuildProjection(rules: seq<StoredRule>, k: nat) returns (d: DimensionRanges)
    requires k < 5 && |rules| < Limit32
    ensures fresh(d) && DimensionAt(d, rules, k, |rules|, |rules|)
  {
    var n := |rules|;
    d := new DimensionRanges(n, 0, DomainMax(k));
    var ruleItr := 0;
    while ruleItr < n
      invariant 0 <= ruleItr <= n && fresh(d)
      invariant DimensionAt(d, rules, k, n, ruleItr)
    {
      AddRuleRange(d, rules, k, n, ruleItr);
      ruleItr := ruleItr + 1;
    }
  }

  /** The five maps of `constructProjections`, one per field. */
  method BuildProjections(rules: seq<StoredRule>) returns (d0: DimensionRanges, d1: DimensionRanges,
      d2: DimensionRanges, d3: DimensionRanges, d4: DimensionRanges)
    requires |rules| < Limit32
    ensures fresh(d0) && fresh(d1) && fresh(d2) && fresh(d3) && fresh(d4)
    ensures var n := |rules|;
      DimensionAt(d0, rules, 0, n, n) && DimensionAt(d1, rules, 1, n, n) && DimensionAt(d2, rules, 2, n, n) &&
      DimensionAt(d3, rules, 3, n, n) && DimensionAt(d4, rules, 4, n, n)
  {
    d0 := BuildProjection(rules, 0);
    d1 := BuildProjection(rules, 1);
    d2 := BuildProjection(rules, 2);
    d3 := BuildProjection(rules, 3);
    d4 := BuildProjection(rules, 4);
  }

  /** `Bitvector5tpl`: the stored rules, the five field projections and the checkpoint counter. */
  class Bitvector5tpl {
    var rules: seq<StoredRule>
    var dimIpSrc: DimensionRanges?
    var dimIpDest: DimensionRanges?
    var dimPortSrc: DimensionRanges?
    var dimPortDest: DimensionRanges?
    var dimProtocol: DimensionRanges?
    var settingHeadersPerCheckpoint: nat
    var cntHeadersAfterCheckpoint: nat
    /** The header counts handed to the memory manager's `checkpoint`, in order. */
    var checkpoints: seq<nat>

    /** All five projections are set. */
    predicate Set()
      reads this
    {
      dimIpSrc != null && dimIpDest != null && dimPortSrc != null && dimPortDest != null && dimProtocol != null
    }

    /** No projection is set. */
    predicate Unset()
      reads this
    {
      dimIpSrc == null && dimIpDest == null && dimPortSrc == null && dimPortDest == null && dimProtocol == null
    }

    /** The headers per checkpoint are a positive 32-bit value and the header count stays below the wrap. */
    predicate CountersOk()
      reads this
    {
      0 < settingHeadersPerCheckpoint < Limit32 && cntHeadersAfterCheckpoint < Limit32 - 1
    }

    /** The projections are all set or all unset; set ones are well-formed maps. */
    predicate Valid()
      reads this, dimIpSrc, dimIpDest, dimPortSrc, dimPortDest, dimProtocol
    {
      |rules| < Limit32 && CountersOk() &&
      (Unset() || (Set() &&
        dimIpSrc.Valid() && dimIpDest.Valid() && dimPortSrc.Valid() && dimPortDest.Valid() && dimProtocol.Valid()))
    }

    /** The projections are set and were built from the current rules. */
    predicate Projected()
      reads this, dimIpSrc, dimIpDest, dimPortSrc, dimPortDest, dimProtocol
    {
      var n := |rules|;
      Set() &&
      DimensionAt(dimIpSrc, rules, 0, n, n) && DimensionAt(dimIpDest, rules, 1, n, n) &&
      DimensionAt(dimPortSrc, rules, 2, n, n) && DimensionAt(dimPortDest, rules, 3, n, n) &&
      DimensionAt(dimProtocol, rules, 4, n, n)
    }

    /** The constructor: no rules, no projections, one header per checkpoint, none counted. */
    constructor()
      ensures Valid() && Unset() && rules == []
      ensures settingHeadersPerCheckpoint == 1 && cntHeadersAfterCheckpoint == 0 && checkpoints == []
    {
      rules := [];
      dimIpSrc, dimIpDest, dimPortSrc, dimPortDest, dimProtocol := null, null, null, null, null;
      settingHeadersPerCheckpoint := 1;
      cntHeadersAfterCheckpoint := 0;
      checkpoints := [];
    }

    /**
     * `setParameters`: the first value sets the headers per checkpoint, 0
     * becoming 1; further values are ignored. The values arrive already
     * cast to 32 bits.
     */
    method SetParameters(params: seq<nat>)
      requires Valid() && forall i :: 0 <= i < |params| ==> params[i] < Limit32
      modifies this
      ensures Valid()
      ensures settingHeadersPerCheckpoint ==
        if |params| > 0 then (if params[0] < 1 then 1 else params[0]) else old(settingHeadersPerCheckpoint)
      ensures rules == old(rules) && dimIpSrc == old(dimIpSrc) && dimIpDest == old(dimIpDest)
      ensures dimPortSrc == old(dimPortSrc) && dimPortDest == old(dimPortDest) && dimProtocol == old(dimProtocol)
      ensures cntHeadersAfterCheckpoint == old(cntHeadersAfterCheckpoint) && checkpoints == old(checkpoints)
    {
      if |params| > 0 {
        settingHeadersPerCheckpoint := params[0];
        if settingHeadersPerCheckpoint < 1 {
          settingHeadersPerCheckpoint := 1;
        }
      }
    }

    /**
     * `headerProcessed`: the header count goes up, and once it reaches the
     * setting it is handed to a checkpoint and starts again from 0.
     */
    method HeaderProcessed()
      requires Valid()
      modifies this
      ensures Valid() && cntHeadersAfterCheckpoint < settingHeadersPerCheckpoint
      ensures cntHeadersAfterCheckpoint == HC.Step(old(cntHeadersAfterCheckpoint), settingHeadersPerCheckpoint).0
      ensures checkpoints == old(checkpoints) + HC.Step(old(cntHeadersAfterCheckpoint), settingHeadersPerCheckpoint).1
      ensures rules == old(rules) && dimIpSrc == old(dimIpSrc) && dimIpDest == old(dimIpDest)
      ensures dimPortSrc == old(dimPortSrc) && dimPortDest == old(dimPortDest) && dimProtocol == old(dimProtocol)
      ensures settingHeadersPerCheckpoint == old(settingHeadersPerCheckpoint)
    {
      cntHeadersAfterCheckpoint := cntHeadersAfterCheckpoint + 1;
      if cntHeadersAfterCheckpoint >= settingHeadersPerCheckpoint {
        checkpoints := checkpoints + [cntHeadersAfterCheckpoint];
        cntHeadersAfterCheckpoint := 0;
      }
    }

    /** `constructProjections`: one range map per field, sized to the rule count; rule t sets bit t. */
    method ConstructProjections()
      requires |rules| < Limit32 && CountersOk()
      modifies this
      ensures rules == old(rules) && Valid() && Projected()
      ensures fresh(dimIpSrc) && fresh(dimIpDest) && fresh(dimPortSrc) && fresh(dimPortDest) && fresh(dimProtocol)
      ensures settingHeadersPerCheckpoint == old(settingHeadersPerCheckpoint)
      ensures cntHeadersAfterCheckpoint == old(cntHeadersAfterCheckpoint) && checkpoints == old(checkpoints)
    {
      var d0, d1, d2, d3, d4 := BuildProjections(rules);
      dimIpSrc, dimIpDest, dimPortSrc, dimPortDest, dimProtocol := d0, d1, d2, d3, d4;
    }

    /** `convertRuleAndStore`: a rule with fewer than five atoms throws; otherwise its ranges are inserted at pos. */
    method ConvertRuleAndStore(rule: G.Rule, pos: nat) returns (o: Outcome)
      requires pos <= |rules| && |rules| + 1 < Limit32
      modifies this
      ensures dimIpSrc == old(dimIpSrc) && dimIpDest == old(dimIpDest) && dimPortSrc == old(dimPortSrc)
      ensures dimPortDest == old(dimPortDest) && dimProtocol == old(dimProtocol)
      ensures settingHeadersPerCheckpoint == old(settingHeadersPerCheckpoint)
      ensures cntHeadersAfterCheckpoint == old(cntHeadersAfterCheckpoint) && checkpoints == old(checkpoints)
      ensures o.Fail? <==> |rule| < 5
      ensures o.Fail? ==> unchanged(this)
      ensures o == Done ==> rules == old(rules)[..pos] + [StoreAtoms(rule)] + old(rules)[pos..]
    {
      if |rule| < 5 {
        return Fail(ShortRuleError);
      }
      rules := rules[..pos] + [StoreAtoms(rule)] + rules[pos..];
      return Done;
    }

    /**
     * `setRules`: stores every rule in order, builds the projections and
     * sets a checkpoint of 0 headers; a short rule throws midway.
     */
    method SetRules(ruleset: G.RuleSet) returns (o: Outcome)
      requires Valid() && |ruleset| < Limit32
      modifies this
      ensures Valid()
      ensures settingHeadersPerCheckpoint == old(settingHeadersPerCheckpoint)
      ensures cntHeadersAfterCheckpoint == old(cntHeadersAfterCheckpoint)
      ensures o == Done <==> forall i :: 0 <= i < |ruleset| ==> |ruleset[i]| >= 5
      ensures o == Done ==> (Projected() && |rules| == |ruleset| &&
        forall i :: 0 <= i < |ruleset| ==> rules[i] == StoreAtoms(ruleset[i]))
      ensures o == Done ==> checkpoints == old(checkpoints) + [0]
      ensures o.Fail? ==> (dimIpSrc == old(dimIpSrc) && dimIpDest == old(dimIpDest) && dimPortSrc == old(dimPortSrc) &&
        dimPortDest == old(dimPortDest) && dimProtocol == old(dimProtocol) && checkpoints == old(checkpoints))
      ensures o.Fail? ==> (|rules| < |ruleset| && |ruleset[|rules|]| < 5 &&
        forall i :: 0 <= i < |rules| ==> |ruleset[i]| >= 5 && rules[i] == StoreAtoms(ruleset[i]))
    {
      rules := [];
      var ruleItr := 0;
      while ruleItr < |ruleset|
        invariant 0 <= ruleItr <= |ruleset| && |rules| == ruleItr
        invariant dimIpSrc == old(dimIpSrc) && dimIpDest == old(dimIpDest) && dimPortSrc == old(dimPortSrc)
        invariant dimPortDest == old(dimPortDest) && dimProtocol == old(dimProtocol)
        invariant settingHeadersPerCheckpoint == old(settingHeadersPerCheckpoint)
        invariant cntHeadersAfterCheckpoint == old(cntHeadersAfterCheckpoint) && checkpoints == old(checkpoints)
        invariant forall i :: 0 <= i < ruleItr ==> |ruleset[i]| >= 5 && rules[i] == StoreAtoms(ruleset[i])
      {
        o := ConvertRuleAndStore(ruleset[ruleItr], |rules|);
        if o.Fail? {
          return;
        }
        ruleItr := ruleItr + 1;
      }
      ConstructProjections();
      checkpoints := checkpoints + [0];
      return Done;
    }

    /** The classification of one converted header: the first set bit of the and of its five bitvectors. */
    method ClassifyTuple(tpl: D.HeaderTuple) returns (r: Result<nat>)
      requires Valid() && Set() && D.ValidHeader(tpl)
      ensures Projected() && ProperRules(rules) ==> r == Ok(IndexOrNoBit(FirstStoredFrom(rules, tpl, 0)))
    {
      var s0 := dimIpSrc.Search(Range(tpl.addrSrc, tpl.addrSrc));
      var s1 := dimIpDest.Search(Range(tpl.addrDest, tpl.addrDest));
      var s2 := dimPortSrc.Search(Range(tpl.portSrc, tpl.portSrc));
      var s3 := dimPortDest.Search(Range(tpl.portDest, tpl.portDest));
      var s4 := dimProtocol.Search(Range(tpl.protocol, tpl.protocol));
      if Projected() && ProperRules(rules) {
        SearchesFind(this, tpl);
      }
      if s0.Err? || s1.Err? || s2.Err? || s3.Err? || s4.Err? {
        return Err(NoRangeError);
      }
      WordCountBound(dimIpSrc.bitvectorSize);
      var combined := s0.value.words;
      AndWordsFit(combined, s1.value.words);
      combined := AndWords(combined, s1.value.words);
      AndWordsFit(combined, s2.value.words);
      combined := AndWords(combined, s2.value.words);
      AndWordsFit(combined, s3.value.words);
      combined := AndWords(combined, s3.value.words);
      AndWordsFit(combined, s4.value.words);
      combined := AndWords(combined, s4.value.words);
      var matchIndex := FirstSetBit(combined);
      if Projected() && ProperRules(rules) {
        ClassifyIsFirstMatch(rules, tpl);
      }
      return Ok(matchIndex);
    }

    /**
     * `classify`: unset projections throw; otherwise each header line is
     * converted and classified in turn, its index pushed to the output,
     * and it counts towards the next checkpoint. The first failure throws,
     * leaving the indices of the lines before it in the output.
     */
    method Classify(headers: seq<seq<nat>>) returns (indices: seq<nat>, o: Outcome)
      requires Valid()
      modifies this
      ensures Valid() && rules == old(rules) && settingHeadersPerCheckpoint == old(settingHeadersPerCheckpoint)
      ensures dimIpSrc == old(dimIpSrc) && dimIpDest == old(dimIpDest) && dimPortSrc == old(dimPortSrc)
      ensures dimPortDest == old(dimPortDest) && dimProtocol == old(dimProtocol)
      ensures !Set() ==> indices == [] && o == Fail(UnsetLookupError)
      ensures |indices| <= |headers| && forall t :: 0 <= t < |indices| ==> C.ConvertHeader(headers[t]).Ok?
      ensures Projected() && ProperRules(rules) ==> forall t :: 0 <= t < |indices| ==>
        indices[t] == IndexOrNoBit(FirstStoredFrom(rules, C.ConvertHeader(headers[t]).value, 0))
      ensures Projected() && ProperRules(rules) ==>
        (o == Done <==> forall j :: 0 <= j < |headers| ==> C.ConvertHeader(headers[j]).Ok?)
      ensures Projected() && ProperRules(rules) && o.Fail? ==>
        |indices| < |headers| && C.ConvertHeader(headers[|indices|]) == Err(o.error)
      ensures o == Done ==> |indices| == |headers|
      ensures cntHeadersAfterCheckpoint ==
        HC.After(old(cntHeadersAfterCheckpoint), settingHeadersPerCheckpoint, |indices|).0
      ensures checkpoints ==
        old(checkpoints) + HC.After(old(cntHeadersAfterCheckpoint), settingHeadersPerCheckpoint, |indices|).1
    {
      indices := [];
      if !Set() {
        return indices, Fail(UnsetLookupError);
      }
      ghost var cnt0, checkpoints0 := cntHeadersAfterCheckpoint, checkpoints;
      var j := 0;
      while j < |headers|
        invariant 0 <= j <= |headers| && |indices| == j
        invariant Valid() && Set() && rules == old(rules) && settingHeadersPerCheckpoint == old(settingHeadersPerCheckpoint)
        invariant dimIpSrc == old(dimIpSrc) && dimIpDest == old(dimIpDest) && dimPortSrc == old(dimPortSrc)
        invariant dimPortDest == old(dimPortDest) && dimProtocol == old(dimProtocol)
        invariant forall t :: 0 <= t < j ==> C.ConvertHeader(headers[t]).Ok?
        invariant Projected() && ProperRules(rules) ==>
          forall t :: 0 <= t < j ==> indices[t] == IndexOrNoBit(FirstStoredFrom(rules, C.ConvertHeader(headers[t]).value, 0))
        invariant cntHeadersAfterCheckpoint == HC.Steps(cnt0, checkpoints0, settingHeadersPerCheckpoint, j).0
        invariant checkpoints == HC.Steps(cnt0, checkpoints0, settingHeadersPerCheckpoint, j).1
      {
        var conv := C.ConvertHeader(headers[j]);
        if conv.Err? {
          HC.AfterIsSteps(cnt0, checkpoints0, settingHeadersPerCheckpoint, j);
          return indices, Fail(conv.error);
        }
        var matchIndex := ClassifyTuple(conv.value);
        if matchIndex.Err? {
          HC.AfterIsSteps(cnt0, checkpoints0, settingHeadersPerCheckpoint, j);
          return indices, Fail(matchIndex.error);
        }
        ClassifiedStep(indices, headers, j, rules, Projected() && ProperRules(rules), matchIndex.value);
        indices := indices + [matchIndex.value];
        HC.StepsNext(cnt0, checkpoints0, settingHeadersPerCheckpoint, j);
        HeaderProcessed();
        j := j + 1;
      }
      HC.AfterIsSteps(cnt0, checkpoints0, settingHeadersPerCheckpoint, j);
      return indices, Done;
    }

    /**
     * `ruleAdded`: an index past the end throws; otherwise the rule is
     * stored there, the projections are rebuilt and a checkpoint of 0
     * headers is set.
     */
    method RuleAdded(index: nat, rule: G.Rule) returns (o: Outcome)
      requires Valid() && |rules| + 1 < Limit32
      modifies this
      ensures Valid()
      ensures settingHeadersPerCheckpoint == old(settingHeadersPerCheckpoint)
      ensures cntHeadersAfterCheckpoint == old(cntHeadersAfterCheckpoint)
      ensures o.Fail? <==> index > |old(rules)| || |rule| < 5
      ensures o.Fail? ==> rules == old(rules) && unchanged(this)
      ensures o == Done ==> Projected() && rules == old(rules)[..index] + [StoreAtoms(rule)] + old(rules)[index..]
      ensures o == Done ==> checkpoints == old(checkpoints) + [0]
    {
      if index > |rules| {
        return Fail(AddPositionError);
      }
      o := ConvertRuleAndStore(rule, index);
      if o.Fail? {
        return;
      }
      ConstructProjections();
      checkpoints := checkpoints + [0];
    }

    /**
     * `ruleRemoved`: an index at or past the end throws; otherwise that
     * rule goes, the projections are rebuilt and a checkpoint of 0 headers
     * is set.
     */
    method RuleRemoved(index: nat) returns (o: Outcome)
      requires Valid()
      modifies this
      ensures Valid()
      ensures settingHeadersPerCheckpoint == old(settingHeadersPerCheckpoint)
      ensures cntHeadersAfterCheckpoint == old(cntHeadersAfterCheckpoint)
      ensures o.Fail? <==> index >= |old(rules)|
      ensures o.Fail? ==> unchanged(this)
      ensures o == Done ==> Projected() && rules == old(rules)[..index] + old(rules)[index + 1..]
      ensures o == Done ==> checkpoints == old(checkpoints) + [0]
    {
      if index >= |rules| {
        return Fail(RemovePositionError);
      }
      rules := rules[..index] + rules[index + 1..];
      ConstructProjections();
      checkpoints := checkpoints + [0];
      return Done;
    }

    /** `reset`: no header counted towards the next checkpoint, no rules and no projections. */
    method Reset()
      requires Valid()
      modifies this
      ensures Valid() && Unset() && rules == [] && cntHeadersAfterCheckpoint == 0
      ensures settingHeadersPerCheckpoint == old(settingHeadersPerCheckpoint) && checkpoints == old(checkpoints)
    {
      cntHeadersAfterCheckpoint := 0;
      rules := [];
      dimIpSrc, dimIpDest, dimPortSrc, dimPortDest, dimProtocol := null, null, null, null, null;
    }
  }

  /** With current projections and proper rules, the five searches of a valid header find its bitvectors. */
  lemma SearchesFind(c: Bitvector5tpl, h: D.HeaderTuple)
    requires c.Projected() && ProperRules(c.rules) && D.ValidHeader(h)
    ensures var n := |c.rules|;
      c.dimIpSrc.Search(Range(h.addrSrc, h.addrSrc)).Ok? &&
      c.dimIpSrc.Search(Range(h.addrSrc, h.addrSrc)).value.words == LookupWords(Project(c.rules, 0, n, n), h.addrSrc) &&
      c.dimIpDest.Search(Range(h.addrDest, h.addrDest)).Ok? &&
      c.dimIpDest.Search(Range(h.addrDest, h.addrDest)).value.words == LookupWords(Project(c.rules, 1, n, n), h.addrDest) &&
      c.dimPortSrc.Search(Range(h.portSrc, h.portSrc)).Ok? &&
      c.dimPortSrc.Search(Range(h.portSrc, h.portSrc)).value.words == LookupWords(Project(c.rules, 2, n, n), h.portSrc) &&
      c.dimPortDest.Search(Range(h.portDest, h.portDest)).Ok? &&
      c.dimPortDest.Search(Range(h.portDest, h.portDest)).value.words == LookupWords(Project(c.rules, 3, n, n), h.portDest) &&
      c.dimProtocol.Search(Range(h.protocol, h.protocol)).Ok? &&
      c.dimProtocol.Search(Range(h.protocol, h.protocol)).value.words == LookupWords(Project(c.rules, 4, n, n), h.protocol)
  {
    HeaderInDomain(h, 0);
    HeaderInDomain(h, 1);
    HeaderInDomain(h, 2);
    HeaderInDomain(h, 3);
    HeaderInDomain(h, 4);
    SearchFinds(c.dimIpSrc, c.rules, 0, h.addrSrc);
    SearchFinds(c.dimIpDest, c.rules, 1, h.addrDest);
    SearchFinds(c.dimPortSrc, c.rules, 2, h.portSrc);
    SearchFinds(c.dimPortDest, c.rules, 3, h.portDest);
    SearchFinds(c.dimProtocol, c.rules, 4, h.protocol);
  }

  /** With a current projection and proper rules, searching a value of the field finds its bitvector. */
  lemma SearchFinds(d: DimensionRanges, rules: seq<StoredRule>, k: nat, v: nat)
    requires k < 5 && DimensionAt(d, rules, k, |rules|, |rules|) && ProperRules(rules) && v <= DomainMax(k)
    ensures d.Search(Range(v, v)).Ok?
    ensures d.Search(Range(v, v)).value.words == LookupWords(Project(rules, k, |rules|, |rules|), v)
  {
    ProjectionPartition(rules, k, |rules|, |rules|);
  }
}
