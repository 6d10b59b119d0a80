/**
 * The HiCuts decision tree over two 32-bit fields: ranges, range rules, and
 * the trie node operations that filter, prune, cut and search.
 */
module HiCuts {
  import opened BitOps
  import opened Results

  // The messages of the exceptions thrown here.
  const CutDimensionError: string := "Error in DataHiCuts2tpl: Invalid value for cutting dimension!"
  const PieceSizeError: string := "Error in DataHiCuts2tpl: Cut piece size in cutting dimension is zero!"
  const ChildIndexError: string := "Error in DataHiCuts2tpl: Wrong calculation of child-index for recursive search!"

  /** `DataHiCuts::Range`: the closed interval [min, max]. */
  datatype Range = Range(min: nat, max: nat)

  /** `overlaps`: one range's minimum lies in the other. */
  predicate Overlaps(a: Range, b: Range)
  {
    (a.min <= b.min && a.max >= b.min) || (b.min <= a.min && b.max >= a.min)
  }

  /** `match`: min <= v <= max. */
  predicate Match(r: Range, v: nat)
  {
    v >= r.min && v <= r.max
  }

  /** `overlaps` is symmetric, and on non-empty ranges holds exactly when a value lies in both. */
  lemma OverlapsMeaning(a: Range, b: Range)
    ensures Overlaps(a, b) <==> Overlaps(b, a)
    ensures a.min <= a.max && b.min <= b.max ==> (Overlaps(a, b) <==> exists v :: Match(a, v) && Match(b, v))
  {
    if Overlaps(a, b) && a.min <= a.max && b.min <= b.max {
      var v := if a.min <= b.min then b.min else a.min;
      assert Match(a, v) && Match(b, v);
    }
  }

  /** `extend`: the receiver after growing it to cover `rhs` as well. */
  function Extend(r: Range, rhs: Range): (e: Range)
    ensures e.min <= r.min && e.min <= rhs.min && e.max >= r.max && e.max >= rhs.max
    ensures e.min == r.min || e.min == rhs.min
    ensures e.max == r.max || e.max == rhs.max
  {
    Range(if rhs.min < r.min then rhs.min else r.min, if rhs.max > r.max then rhs.max else r.max)
  }

  /** The extended range is the least one holding every value of both ranges. */
  lemma ExtendIsHull(r: Range, rhs: Range, c: Range)
    requires r.min <= r.max && rhs.min <= rhs.max
    ensures forall v :: Match(r, v) || Match(rhs, v) ==> Match(Extend(r, rhs), v)
    ensures (forall v :: Match(r, v) || Match(rhs, v) ==> Match(c, v)) ==>
      (forall v :: Match(Extend(r, rhs), v) ==> Match(c, v))
  {
    if forall v :: Match(r, v) || Match(rhs, v) ==> Match(c, v) {
      var e := Extend(r, rhs);
      assert Match(c, e.min) by { assert Match(r, e.min) || Match(rhs, e.min); }
      assert Match(c, e.max) by { assert Match(r, e.max) || Match(rhs, e.max); }
    }
  }

  /**
   * The four calls of the extend test, in its order: r5 is extended by r1
   * after r1 itself was extended to [17, 20000].
   */
  lemma ExtendExample()
    ensures Extend(Range(17, 30), Range(30, 20000)) == Range(17, 20000)
    ensures Extend(Range(30, 20000), Range(0, 0xFFFF_FFFF)) == Range(0, 0xFFFF_FFFF)
    ensures Extend(Range(2, 16), Range(2, 16)) == Range(2, 16)
    ensures Extend(Range(2, 16), Range(17, 20000)) == Range(2, 20000)
  {
  }

  /**
   * `inside`: `oth` reaches down to the larger of the two minimums and up
   * to the smaller of the two maximums.
   */
  predicate Inside(r: Range, oth: Range, box: Range)
  {
    oth.min <= (if r.min > box.min then r.min else box.min) &&
    oth.max >= (if r.max < box.max then r.max else box.max)
  }

  /** When r meets the box, `inside` holds exactly when `oth` covers r's part of the box. */
  lemma InsideMeaning(r: Range, oth: Range, box: Range)
    requires exists v :: Match(r, v) && Match(box, v)
    ensures Inside(r, oth, box) <==> forall v :: Match(r, v) && Match(box, v) ==> Match(oth, v)
  {
    var lo := if r.min > box.min then r.min else box.min;
    var hi := if r.max < box.max then r.max else box.max;
    if forall v :: Match(r, v) && Match(box, v) ==> Match(oth, v) {
      var w :| Match(r, w) && Match(box, w);
      assert Match(r, lo) && Match(box, lo);
      assert Match(r, hi) && Match(box, hi);
    }
  }

  /** `RangeRule<uint32_t, uint32_t>`: a rule index and one range check per field. */
  datatype RangeRule = RangeRule(index: nat, check1: Range, check2: Range)

  /** `Data2tpl::HeaderTuple`: the two field values of a header. */
  datatype Header = Header(addrSrc: nat, addrDest: nat)

  /** The range a rule checks in dimension d (1 or 2). */
  function FieldRange(r: RangeRule, d: nat): Range
  {
    if d == 1 then r.check1 else r.check2
  }

  /** `RangeRule::overlaps`: both checks overlap the box. */
  predicate RuleOverlaps(r: RangeRule, b1: Range, b2: Range)
  {
    Overlaps(r.check1, b1) && Overlaps(r.check2, b2)
  }

  /** `RangeRule::match`: both checks hold their value. */
  predicate RuleMatch(r: RangeRule, h: Header)
  {
    Match(r.check1, h.addrSrc) && Match(r.check2, h.addrDest)
  }

  /** `RangeRule::inside`: both checks are inside the other rule's within the box. */
  predicate RuleInside(r: RangeRule, oth: RangeRule, b1: Range, b2: Range)
  {
    Inside(r.check1, oth.check1, b1) && Inside(r.check2, oth.check2, b2)
  }

  /** The header lies in the box. */
  predicate InBox(h: Header, b1: Range, b2: Range)
  {
    Match(b1, h.addrSrc) && Match(b2, h.addrDest)
  }

  /** A rule matching a header of the box overlaps the box. */
  lemma MatchInBoxOverlaps(r: RangeRule, h: Header, b1: Range, b2: Range)
    requires RuleMatch(r, h) && InBox(h, b1, b2)
    ensures RuleOverlaps(r, b1, b2)
  {
  }

  /** A rule inside an earlier one within the box never matches a header of the box that the earlier one misses. */
  lemma InsideShadows(r: RangeRule, oth: RangeRule, h: Header, b1: Range, b2: Range)
    requires RuleInside(r, oth, b1, b2) && InBox(h, b1, b2) && RuleMatch(r, h)
    ensures RuleMatch(oth, h)
  {
  }

  // ---------------------------------------------------------------------
  // Specification functions on rule lists
  // ---------------------------------------------------------------------

  /** The index of the first rule matching the header, if any. */
  function FirstIndex(rules: seq<RangeRule>, h: Header): (r: Option<nat>)
    ensures r.None? <==> forall i :: 0 <= i < |rules| ==> !RuleMatch(rules[i], h)
    ensures r.Some? ==>
      (exists i :: 0 <= i < |rules| && RuleMatch(rules[i], h) && rules[i].index == r.value &&
         forall j :: 0 <= j < i ==> !RuleMatch(rules[j], h))
  {
    if |rules| == 0 then None
    else if RuleMatch(rules[0], h) then Some(rules[0].index)
    else
      var r := FirstIndex(rules[1..], h);
      assert forall i :: 1 <= i < |rules| ==> rules[1..][i - 1] == rules[i];
      r
  }

  /** The rules overlapping the box, in their order. */
  function Overlapping(rules: seq<RangeRule>, b1: Range, b2: Range): (rs: seq<RangeRule>)
    ensures |rs| <= |rules|
    ensures forall r :: r in rs <==> r in rules && RuleOverlaps(r, b1, b2)
  {
    if |rules| == 0 then []
    else
      var rest := Overlapping(rules[..|rules| - 1], b1, b2);
      var last := rules[|rules| - 1];
      assert rules == rules[..|rules| - 1] + [last];
      if RuleOverlaps(last, b1, b2) then rest + [last] else rest
  }

  /** Appending a rule to the input appends it to the filtered list when it overlaps the box. */
  lemma OverlappingSnoc(rules: seq<RangeRule>, r: RangeRule, b1: Range, b2: Range)
    ensures Overlapping(rules + [r], b1, b2) ==
      Overlapping(rules, b1, b2) + (if RuleOverlaps(r, b1, b2) then [r] else [])
  {
    assert (rules + [r])[..|rules + [r]| - 1] == rules;
  }

  /** For a header of the box, filtering by the box leaves its first match unchanged. */
  lemma {:induction false} OverlappingKeepsFirstMatch(rules: seq<RangeRule>, h: Header, b1: Range, b2: Range)
    requires InBox(h, b1, b2)
    ensures FirstIndex(Overlapping(rules, b1, b2), h) == FirstIndex(rules, h)
    decreases |rules|
  {
    if |rules| > 0 {
      var init := rules[..|rules| - 1];
      var last := rules[|rules| - 1];
      assert rules == init + [last];
      OverlappingKeepsFirstMatch(init, h, b1, b2);
      if RuleMatch(last, h) {
        MatchInBoxOverlaps(last, h, b1, b2);
      }
      FirstIndexSnoc(Overlapping(init, b1, b2), last, h);
      FirstIndexSnoc(init, last, h);
    }
  }

  /** The first match of a list with one rule appended. */
  lemma {:induction false} FirstIndexSnoc(rules: seq<RangeRule>, r: RangeRule, h: Header)
    ensures FirstIndex(rules + [r], h) ==
      (if FirstIndex(rules, h).Some? then FirstIndex(rules, h)
       else if RuleMatch(r, h) then Some(r.index) else None)
    decreases |rules|
  {
    if |rules| > 0 {
      assert (rules + [r])[1..] == rules[1..] + [r];
      FirstIndexSnoc(rules[1..], r, h);
    }
  }

  /** The rules that `removeRedundancy` keeps: `kept` already passed, every later rule still to test. */
  function Pruned(kept: seq<RangeRule>, rest: seq<RangeRule>, b1: Range, b2: Range): (rs: seq<RangeRule>)
    ensures |rs| <= |kept| + |rest|
    decreases |rest|
  {
    if |rest| == 0 then kept
    else
      var higher := rest[0];
      Pruned(kept + [higher], Without(rest[1..], higher, b1, b2), b1, b2)
  }

  /** The rules of `rules` not inside `higher` within the box, in their order. */
  function Without(rules: seq<RangeRule>, higher: RangeRule, b1: Range, b2: Range): (rs: seq<RangeRule>)
    ensures |rs| <= |rules|
  {
    if |rules| == 0 then []
    else
      var rest := Without(rules[1..], higher, b1, b2);
      if RuleInside(rules[0], higher, b1, b2) then rest else [rules[0]] + rest
  }

  /** `Without` keeps exactly the rules not inside `higher`. */
  lemma {:induction false} WithoutMembers(rules: seq<RangeRule>, higher: RangeRule, b1: Range, b2: Range)
    ensures forall r :: r in Without(rules, higher, b1, b2) <==> r in rules && !RuleInside(r, higher, b1, b2)
    decreases |rules|
  {
    if |rules| > 0 {
      WithoutMembers(rules[1..], higher, b1, b2);
      assert forall r :: r in rules <==> r == rules[0] || r in rules[1..];
    }
  }

  /** For a header of the box, dropping the rules inside `higher` does not change the first match after it. */
  lemma {:induction false} WithoutKeepsFirstMatch(higher: RangeRule, rules: seq<RangeRule>, h: Header, b1: Range, b2: Range)
    requires InBox(h, b1, b2)
    ensures FirstIndex([higher] + Without(rules, higher, b1, b2), h) == FirstIndex([higher] + rules, h)
    decreases |rules|
  {
    if |rules| > 0 && !RuleMatch(higher, h) {
      var first := rules[0];
      assert ([higher] + rules)[1..] == rules;
      assert ([higher] + Without(rules, higher, b1, b2))[1..] == Without(rules, higher, b1, b2);
      WithoutKeepsFirstMatch(higher, rules[1..], h, b1, b2);
      assert ([higher] + rules[1..])[1..] == rules[1..];
      assert ([higher] + Without(rules[1..], higher, b1, b2))[1..] == Without(rules[1..], higher, b1, b2);
      if RuleInside(first, higher, b1, b2) && RuleMatch(first, h) {
        InsideShadows(first, higher, h, b1, b2);
      }
      if !RuleInside(first, higher, b1, b2) {
        assert ([first] + Without(rules[1..], higher, b1, b2))[1..] == Without(rules[1..], higher, b1, b2);
      }
    }
  }

  /** The first match of a concatenation: the first list's, or else the second's. */
  lemma {:induction false} FirstIndexAppend(a: seq<RangeRule>, b: seq<RangeRule>, h: Header)
    ensures FirstIndex(a + b, h) == if FirstIndex(a, h).Some? then FirstIndex(a, h) else FirstIndex(b, h)
    decreases |a|
  {
    if |a| == 0 {
      assert a + b == b;
    } else {
      assert (a + b)[1..] == a[1..] + b;
      FirstIndexAppend(a[1..], b, h);
    }
  }

  /** For a header of the box, pruning keeps the first match (kept rules first, then the rest). */
  lemma {:induction false} PrunedKeepsFirstMatch(kept: seq<RangeRule>, rest: seq<RangeRule>, h: Header, b1: Range, b2: Range)
    requires InBox(h, b1, b2)
    ensures FirstIndex(Pruned(kept, rest, b1, b2), h) == FirstIndex(kept + rest, h)
    decreases |rest|
  {
    if |rest| > 0 {
      var higher := rest[0];
      var rest' := Without(rest[1..], higher, b1, b2);
      PrunedKeepsFirstMatch(kept + [higher], rest', h, b1, b2);
      assert kept + [higher] + rest' == kept + ([higher] + rest');
      assert rest == [higher] + rest[1..];
      assert kept + rest == kept + ([higher] + rest[1..]);
      FirstIndexAppend(kept, [higher] + rest', h);
      FirstIndexAppend(kept, [higher] + rest[1..], h);
      WithoutKeepsFirstMatch(higher, rest[1..], h, b1, b2);
    } else {
      assert kept + rest == kept;
    }
  }

  /** No rule kept by pruning lies inside an earlier kept rule within the box. */
  lemma {:induction false} PrunedHasNoShadowed(kept: seq<RangeRule>, rest: seq<RangeRule>, b1: Range, b2: Range)
    requires forall i, j :: 0 <= i < j < |kept| ==> !RuleInside(kept[j], kept[i], b1, b2)
    requires forall i, r :: 0 <= i < |kept| && r in rest ==> !RuleInside(r, kept[i], b1, b2)
    ensures forall i, j :: 0 <= i < j < |Pruned(kept, rest, b1, b2)| ==>
      !RuleInside(Pruned(kept, rest, b1, b2)[j], Pruned(kept, rest, b1, b2)[i], b1, b2)
    decreases |rest|
  {
    if |rest| > 0 {
      var higher := rest[0];
      var rest' := Without(rest[1..], higher, b1, b2);
      var kept' := kept + [higher];
      PruneStepUnshadowed(kept, rest, kept', rest', b1, b2);
      PrunedHasNoShadowed(kept', rest', b1, b2);
      assert Pruned(kept, rest, b1, b2) == Pruned(kept', rest', b1, b2);
    } else {
      assert Pruned(kept, rest, b1, b2) == kept;
    }
  }

  /** One pruning step: the rule moved to the kept ones shadows none kept before it, and what stays is not shadowed. */
  lemma PruneStepUnshadowed(kept: seq<RangeRule>, rest: seq<RangeRule>, kept': seq<RangeRule>, rest': seq<RangeRule>, b1: Range, b2: Range)
    requires |rest| > 0 && kept' == kept + [rest[0]] && rest' == Without(rest[1..], rest[0], b1, b2)
    requires forall i, j :: 0 <= i < j < |kept| ==> !RuleInside(kept[j], kept[i], b1, b2)
    requires forall i, r :: 0 <= i < |kept| && r in rest ==> !RuleInside(r, kept[i], b1, b2)
    ensures forall i, j :: 0 <= i < j < |kept'| ==> !RuleInside(kept'[j], kept'[i], b1, b2)
    ensures forall i, r :: 0 <= i < |kept'| && r in rest' ==> !RuleInside(r, kept'[i], b1, b2)
  {
    var higher := rest[0];
    assert higher in rest;
    forall i, j | 0 <= i < j < |kept'|
      ensures !RuleInside(kept'[j], kept'[i], b1, b2)
    {
      if j == |kept| {
        assert kept'[j] == higher;
      } else {
        assert kept'[j] == kept[j] && kept'[i] == kept[i];
      }
    }
    WithoutMembers(rest[1..], higher, b1, b2);
    forall i, r | 0 <= i < |kept'| && r in rest'
      ensures !RuleInside(r, kept'[i], b1, b2)
    {
      assert r in rest[1..];
      if i < |kept| {
        assert r in rest;
        assert kept'[i] == kept[i];
      } else {
        assert kept'[i] == higher;
      }
    }
  }

  /** Pruning keeps a subset of the rules. */
  lemma {:induction false} PrunedSubset(kept: seq<RangeRule>, rest: seq<RangeRule>, b1: Range, b2: Range)
    ensures forall r :: r in Pruned(kept, rest, b1, b2) ==> r in kept || r in rest
    decreases |rest|
  {
    if |rest| > 0 {
      var higher := rest[0];
      PrunedSubset(kept + [higher], Without(rest[1..], higher, b1, b2), b1, b2);
      WithoutMembers(rest[1..], higher, b1, b2);
    }
  }

  /** The number of t in [j, |rules|) whose dimension-d check is disjoint from rule i's. */
  function Row(rules: seq<RangeRule>, i: nat, j: nat, d: nat): nat
    requires i < |rules| && j <= |rules|
    decreases j
  {
    if j <= i + 1 then 0
    else Row(rules, i, j - 1, d) + (if Overlaps(FieldRange(rules[i], d), FieldRange(rules[j - 1], d)) then 0 else 1)
  }

  /** The number of disjoint pairs (s, t), s < t, with s < i, in dimension d. */
  function Pairs(rules: seq<RangeRule>, i: nat, d: nat): nat
    requires i <= |rules|
  {
    if i == 0 then 0 else Pairs(rules, i - 1, d) + Row(rules, i - 1, |rules|, d)
  }

  /** A row counts zero exactly when every later check overlaps. */
  lemma {:induction false} RowZero(rules: seq<RangeRule>, i: nat, j: nat, d: nat)
    requires i < |rules| && j <= |rules|
    ensures Row(rules, i, j, d) == 0 <==>
      forall t :: i < t < j ==> Overlaps(FieldRange(rules[i], d), FieldRange(rules[t], d))
    ensures Row(rules, i, j, d) <= j
    decreases j
  {
    if j > i + 1 {
      RowZero(rules, i, j - 1, d);
    }
  }

  /** No disjoint pair exists exactly when every two checks overlap; at most one per pair. */
  lemma {:induction false} PairsZero(rules: seq<RangeRule>, i: nat, d: nat)
    requires i <= |rules|
    ensures Pairs(rules, i, d) == 0 <==>
      forall s, t :: 0 <= s < i && s < t < |rules| ==> Overlaps(FieldRange(rules[s], d), FieldRange(rules[t], d))
    decreases i
  {
    if i > 0 {
      PairsZero(rules, i - 1, d);
      RowZero(rules, i - 1, |rules|, d);
    }
  }

  /** At most one pair per rule and later rule. */
  lemma {:induction false} PairsBound(rules: seq<RangeRule>, i: nat, d: nat)
    requires i <= |rules|
    ensures Pairs(rules, i, d) <= i * |rules|
    decreases i
  {
    if i > 0 {
      PairsBound(rules, i - 1, d);
      RowZero(rules, i - 1, |rules|, d);
      assert (i - 1) * |rules| + |rules| == i * |rules|;
    }
  }

  /**
   * `countDisjunctPairs`: for each of the two dimensions, the number of
   * rule pairs whose checks do not overlap. The source steps to the
   * second-to-last rule, so it needs at least one rule.
   */
  method CountDisjunctPairs(rules: seq<RangeRule>) returns (results: seq<nat>)
    requires |rules| >= 1
    ensures |results| == 2
    ensures results[0] == Pairs(rules, |rules|, 1) && results[1] == Pairs(rules, |rules|, 2)
  {
    var disjunctPairs1 := 0;
    var disjunctPairs2 := 0;
    var rule1Itr := 0;
    while rule1Itr < |rules| - 1
      invariant 0 <= rule1Itr <= |rules| - 1
      invariant disjunctPairs1 == Pairs(rules, rule1Itr, 1) && disjunctPairs2 == Pairs(rules, rule1Itr, 2)
    {
      var rule2Itr := rule1Itr + 1;
      while rule2Itr < |rules|
        invariant rule1Itr + 1 <= rule2Itr <= |rules|
        invariant disjunctPairs1 == Pairs(rules, rule1Itr, 1) + Row(rules, rule1Itr, rule2Itr, 1)
        invariant disjunctPairs2 == Pairs(rules, rule1Itr, 2) + Row(rules, rule1Itr, rule2Itr, 2)
      {
        if !Overlaps(rules[rule1Itr].check1, rules[rule2Itr].check1) {
          disjunctPairs1 := disjunctPairs1 + 1;
        }
        if !Overlaps(rules[rule1Itr].check2, rules[rule2Itr].check2) {
          disjunctPairs2 := disjunctPairs2 + 1;
        }
        rule2Itr := rule2Itr + 1;
      }
      rule1Itr := rule1Itr + 1;
    }
    assert Row(rules, |rules| - 1, |rules|, 1) == 0 && Row(rules, |rules| - 1, |rules|, 2) == 0;
    results := [disjunctPairs1, disjunctPairs2];
  }

  /** `Range::size()` on 32-bit bounds: max - min wraps modulo 2^32 before one is added. */
  function BoxSize(r: Range): nat
  {
    (r.max - r.min) % Limit32 + 1
  }

  /** Unsigned 32-bit addition. */
  function Add32(a: int, b: int): nat
  {
    (a + b) % Limit32
  }

  // ---------------------------------------------------------------------
  // Trie nodes
  // ---------------------------------------------------------------------

  /** `TrieNode`: the children (a child may be empty), the rules, the cut and the node's box. */
  /**
   * The state of `removeRedundancy`'s inner pass: the rules up to `higher`
   * are untouched, and the kept rules before `lower` followed by what is
   * still to be filtered give the filtered tail of the original list.
   */
  predicate Erasing(rules0: seq<RangeRule>, rules: seq<RangeRule>, higher: nat, lower: nat, b1: Range, b2: Range) {
    higher < |rules0| && higher < lower <= |rules| && rules[..higher + 1] == rules0[..higher + 1] &&
    rules[higher + 1..lower] + Without(rules[lower..], rules[higher], b1, b2) ==
      Without(rules0[higher + 1..], rules0[higher], b1, b2)
  }

  /** Erasing a rule inside `higher` keeps the pass's state. */
  lemma EraseStep(rules0: seq<RangeRule>, rules: seq<RangeRule>, higher: nat, lower: nat, b1: Range, b2: Range)
    requires Erasing(rules0, rules, higher, lower, b1, b2) && lower < |rules|
    requires RuleInside(rules[lower], rules[higher], b1, b2)
    ensures Erasing(rules0, rules[..lower] + rules[lower + 1..], higher, lower, b1, b2)
  {
    var next := rules[..lower] + rules[lower + 1..];
    assert rules[lower..][1..] == rules[lower + 1..];
    assert next[higher + 1..lower] == rules[higher + 1..lower];
    assert next[lower..] == rules[lower + 1..];
    assert next[..higher + 1] == rules[..higher + 1];
  }

  /** Moving past a rule not inside `higher` keeps the pass's state. */
  lemma KeepStep(rules0: seq<RangeRule>, rules: seq<RangeRule>, higher: nat, lower: nat, b1: Range, b2: Range)
    requires Erasing(rules0, rules, higher, lower, b1, b2) && lower < |rules|
    requires !RuleInside(rules[lower], rules[higher], b1, b2)
    ensures Erasing(rules0, rules, higher, lower + 1, b1, b2)
  {
    assert rules[lower..][1..] == rules[lower + 1..];
    assert rules[higher + 1..lower + 1] == rules[higher + 1..lower] + [rules[lower]];
  }

  /** The loop of `removeRedundancy`'s inner pass on a rule list: erases the rules after `higher` inside it. */
  method EraseWithin(rules0: seq<RangeRule>, higher: nat, b1: Range, b2: Range) returns (rules: seq<RangeRule>)
    requires higher < |rules0|
    ensures rules == rules0[..higher + 1] + Without(rules0[higher + 1..], rules0[higher], b1, b2)
  {
    rules := rules0;
    var lower := higher + 1;
    assert rules[lower..] == rules0[higher + 1..];
    while lower < |rules|
      invariant Erasing(rules0, rules, higher, lower, b1, b2)
      decreases |rules| - lower
    {
      if RuleInside(rules[lower], rules[higher], b1, b2) {
        EraseStep(rules0, rules, higher, lower, b1, b2);
        rules := rules[..lower] + rules[lower + 1..];
      } else {
        KeepStep(rules0, rules, higher, lower, b1, b2);
        lower := lower + 1;
      }
    }
    assert rules == rules[..higher + 1] + rules[higher + 1..lower];
  }

  class TrieNode {
    var children: seq<TrieNode?>
    var rules: seq<RangeRule>
    var cutDimension: nat
    var cutPieceSize: nat
    var box1: Range
    var box2: Range
    ghost var Repr: set<object>

    /** The node owns itself and its children's nodes, and every child is itself valid. */
    ghost predicate Valid()
      reads this, Repr
      decreases Repr
    {
      this in Repr &&
      forall c :: c in children && c != null ==>
        c in Repr && c.Repr <= Repr && this !in c.Repr && c.Valid()
    }

    /** `TrieNode(box1min, box1max, box2min, box2max)`: a leaf with no rules and no cut. */
    constructor(box1min: nat, box1max: nat, box2min: nat, box2max: nat)
      ensures Valid() && fresh(Repr) && Repr == {this}
      ensures children == [] && rules == [] && cutDimension == 0 && cutPieceSize == 0
      ensures box1 == Range(box1min, box1max) && box2 == Range(box2min, box2max)
    {
      children := [];
      rules := [];
      cutDimension := 0;
      cutPieceSize := 0;
      box1 := Range(box1min, box1max);
      box2 := Range(box2min, box2max);
      Repr := {this};
    }

    /** `getRuleAmount`. */
    function RuleAmount(): (n: nat)
      reads this
      ensures n == |rules|
    {
      |rules|
    }

    /** `setRules`: keeps, in order, the given rules that overlap the node's box. */
    method SetRules(from: seq<RangeRule>)
      modifies this
      ensures rules == Overlapping(from, box1, box2)
      ensures children == old(children) && cutDimension == old(cutDimension) && cutPieceSize == old(cutPieceSize)
      ensures box1 == old(box1) && box2 == old(box2) && Repr == old(Repr)
    {
      rules := [];
      var i := 0;
      while i < |from|
        invariant 0 <= i <= |from|
        invariant rules == Overlapping(from[..i], box1, box2)
        invariant children == old(children) && cutDimension == old(cutDimension) && cutPieceSize == old(cutPieceSize)
        invariant box1 == old(box1) && box2 == old(box2) && Repr == old(Repr)
      {
        assert from[..i + 1] == from[..i] + [from[i]];
        OverlappingSnoc(from[..i], from[i], box1, box2);
        if RuleOverlaps(from[i], box1, box2) {
          rules := rules + [from[i]];
        }
        i := i + 1;
      }
      assert from[..|from|] == from;
    }

    /**
     * `removeRedundancy`: for each surviving rule in order, every later rule
     * inside it within the box is erased.
     */
    method RemoveRedundancy()
      modifies this
      ensures rules == Pruned([], old(rules), box1, box2)
      ensures children == old(children) && cutDimension == old(cutDimension) && cutPieceSize == old(cutPieceSize)
      ensures box1 == old(box1) && box2 == old(box2) && Repr == old(Repr)
    {
      var higher := 0;
      while higher + 1 < |rules|
        invariant higher <= |rules|
        invariant Pruned(rules[..higher], rules[higher..], box1, box2) == Pruned([], old(rules), box1, box2)
        invariant children == old(children) && cutDimension == old(cutDimension) && cutPieceSize == old(cutPieceSize)
        invariant box1 == old(box1) && box2 == old(box2) && Repr == old(Repr)
        decreases |rules| - higher
      {
        ghost var before := rules;
        EraseInside(higher);
        assert before[higher..] == [before[higher]] + before[higher + 1..];
        assert rules[..higher + 1] == before[..higher] + [before[higher]];
        higher := higher + 1;
      }
      if higher < |rules| {
        assert rules[higher..] == [rules[higher]];
        assert rules[..higher] + [rules[higher]] == rules;
      } else {
        assert rules[..higher] == rules;
      }
    }

    /** The inner loop of `removeRedundancy`: erases the rules after `higher` that lie inside it. */
    method EraseInside(higher: nat)
      requires higher < |rules|
      modifies this
      ensures rules == old(rules)[..higher + 1] + Without(old(rules)[higher + 1..], old(rules)[higher], box1, box2)
      ensures children == old(children) && cutDimension == old(cutDimension) && cutPieceSize == old(cutPieceSize)
      ensures box1 == old(box1) && box2 == old(box2) && Repr == old(Repr)
    {
      rules := EraseWithin(rules, higher, box1, box2);
    }

    /** The size of the node's box in the cut dimension; 0 when no dimension is chosen. */
    function CutSize(): nat
      reads this
    {
      if cutDimension == 1 then BoxSize(box1) else if cutDimension == 2 then BoxSize(box2) else 0
    }

    /**
     * `calcPieceSize`: the piece is the box size divided by the number of
     * cuts, rounded down; a piece of zero becomes 1 and is reported.
     */
    method CalcPieceSize(amount: nat) returns (underrun: bool)
      requires amount > 0
      modifies this
      ensures underrun <==> CutSize() < amount
      ensures underrun ==> cutPieceSize == 1
      ensures !underrun ==> cutPieceSize * amount <= CutSize() < (cutPieceSize + 1) * amount
      ensures children == old(children) && rules == old(rules) && cutDimension == old(cutDimension)
      ensures box1 == old(box1) && box2 == old(box2) && Repr == old(Repr)
    {
      DivBounds(CutSize(), amount);
      var partSize := 0;
      if cutDimension == 1 {
        partSize := BoxSize(box1) / amount;
      } else if cutDimension == 2 {
        partSize := BoxSize(box2) / amount;
      }
      if partSize == 0 {
        cutPieceSize := 1;
        underrun := true;
      } else {
        cutPieceSize := partSize;
        underrun := false;
      }
    }

    /** The box of child c of this node's cut in dimension k. */
    function ChildBox(c: nat, k: nat): Range
      reads this
    {
      PieceBox(if k == 1 then box1 else box2, k == cutDimension, cutPieceSize, c)
    }

    /** The children are `amount` leaves, child c over box c, holding the node's rules that overlap it. */
    ghost predicate CutChildren(amount: nat)
      reads this, children
    {
      |children| == amount &&
      forall c :: 0 <= c < amount ==>
        children[c] != null && children[c].children == [] &&
        children[c].box1 == ChildBox(c, 1) && children[c].box2 == ChildBox(c, 2) &&
        children[c].rules == Overlapping(rules, ChildBox(c, 1), ChildBox(c, 2))
    }

    /**
     * `cut`: the piece size is computed, then `amount` children are made,
     * child c covering piece c of the cut dimension and the whole other one,
     * and each is given the node's rules that overlap its box.
     */
    method Cut(amount: nat) returns (underrun: bool)
      requires Valid() && children == [] && amount > 0 && (cutDimension == 1 || cutDimension == 2)
      modifies this
      ensures Valid() && CutChildren(amount)
      ensures underrun <==> CutSize() < amount
      ensures underrun ==> cutPieceSize == 1
      ensures !underrun ==> cutPieceSize * amount <= CutSize() < (cutPieceSize + 1) * amount
      ensures rules == old(rules) && cutDimension == old(cutDimension) && box1 == old(box1) && box2 == old(box2)
      ensures fresh(Repr - old(Repr))
    {
      underrun := CalcPieceSize(amount);
      ghost var piece := cutPieceSize;
      var c := 0;
      while c < amount
        invariant 0 <= c <= amount && Valid() && CutChildren(c)
        invariant rules == old(rules) && cutDimension == old(cutDimension) && box1 == old(box1) && box2 == old(box2)
        invariant cutPieceSize == piece
        invariant fresh(Repr - old(Repr))
      {
        AddChild(c);
        c := c + 1;
      }
    }

    /** One pass of the child loop of `cut`: child c over box c, with the rules that overlap it. */
    method AddChild(c: nat)
      requires Valid() && CutChildren(c)
      modifies this
      ensures Valid() && CutChildren(c + 1)
      ensures rules == old(rules) && cutDimension == old(cutDimension) && cutPieceSize == old(cutPieceSize)
      ensures box1 == old(box1) && box2 == old(box2)
      ensures fresh(Repr - old(Repr))
    {
      var b1 := ChildBox(c, 1);
      var b2 := ChildBox(c, 2);
      var newChild := new TrieNode(b1.min, b1.max, b2.min, b2.max);
      newChild.SetRules(rules);
      children := children + [newChild];
      Repr := Repr + newChild.Repr;
      assert newChild.Valid() && newChild.children == [];
    }

    /**
     * `spaceMeasure`: the children's rule counts plus one less than the
     * number of children, in unsigned 32-bit arithmetic; every child is
     * dereferenced, so all must be present.
     */
    method SpaceMeasure() returns (space: nat)
      requires forall i :: 0 <= i < |children| ==> children[i] != null
      ensures space == (RuleSum(children) + (if |children| == 0 then 0 else |children| - 1)) % Limit32
    {
      space := 0;
      var i := 0;
      while i < |children|
        invariant 0 <= i <= |children|
        invariant space == RuleSum(children[..i]) % Limit32
      {
        assert children[..i + 1][..i] == children[..i];
        AddMod(RuleSum(children[..i]), |children[i].rules|);
        space := Add32(space, children[i].RuleAmount());
        i := i + 1;
      }
      assert children[..i] == children;
      AddMod(RuleSum(children), if |children| == 0 then 0 else |children| - 1);
      space := Add32(space, if |children| == 0 then 0 else |children| - 1);
    }

    /** The child that `search` descends to: the offset in the cut dimension (32-bit) over the piece size. */
    function ChildIndex(h: Header): nat
      reads this
      requires cutDimension == 1 || cutDimension == 2
      requires cutPieceSize > 0
    {
      if cutDimension == 1 then PieceIndex(h.addrSrc, box1.min, cutPieceSize)
      else PieceIndex(h.addrDest, box2.min, cutPieceSize)
    }

    /**
     * What `search` reports: at a leaf the index of the first matching rule;
     * at an inner node the answer of the child the header falls into, none
     * for an empty child, and an error for an unknown cut dimension, a zero
     * piece or a child index past the children.
     */
    ghost function Lookup(h: Header): Result<Option<nat>>
      reads this, Repr
      requires Valid()
      decreases Repr
    {
      if |children| == 0 then Ok(FirstIndex(rules, h))
      else if cutDimension != 1 && cutDimension != 2 then Err(CutDimensionError)
      else if cutPieceSize == 0 then Err(PieceSizeError)
      else if ChildIndex(h) >= |children| then
        Err(ChildIndexError)
      else if children[ChildIndex(h)] == null then Ok(None)
      else
        assert children[ChildIndex(h)] in children;
        children[ChildIndex(h)].Lookup(h)
    }

    /** `search`: linear search at a leaf, otherwise descent into the header's child. */
    method Search(h: Header) returns (r: Result<Option<nat>>)
      requires Valid()
      ensures r == Lookup(h)
      decreases Repr
    {
      if |children| == 0 {
        var found := LeafSearch(rules, h);
        return Ok(found);
      }
      if cutDimension != 1 && cutDimension != 2 {
        return Err(CutDimensionError);
      }
      if cutPieceSize == 0 {
        return Err(PieceSizeError);
      }
      var childIdx := ChildIndex(h);
      if childIdx < |children| {
        var child := children[childIdx];
        if child != null {
          assert child in children;
          r := child.Search(h);
        } else {
          r := Ok(None);
        }
      } else {
        r := Err(ChildIndexError);
      }
    }
  }

  /** The total rule count of the present nodes of a child list. */
  function RuleSum(cs: seq<TrieNode?>): nat
    reads set i | 0 <= i < |cs| && cs[i] != null :: cs[i]
  {
    if |cs| == 0 then 0
    else
      var last := cs[|cs| - 1];
      RuleSum(cs[..|cs| - 1]) + (if last == null then 0 else |last.rules|)
  }

  /** Adding after a 32-bit wrap-around is the same as adding before it. */
  lemma AddMod(a: nat, b: nat)
    ensures (a % Limit32 + b) % Limit32 == (a + b) % Limit32
  {
    var q, r := a / Limit32, a % Limit32;
    var q2, r2 := (r + b) / Limit32, (r + b) % Limit32;
    assert a + b == Limit32 * (q + q2) + r2;
    DivModUnique(a + b, Limit32, q + q2, r2);
  }

  /**
   * After a cut every child holds at most its parent's rules, so the rule
   * count of the children is at most amount times the parent's.
   */
  lemma CutRuleSumBound(n: TrieNode, amount: nat, k: nat)
    requires n.CutChildren(amount) && k <= amount
    ensures RuleSum(n.children[..k]) <= k * |n.rules|
  {
    var cs := n.children[..k];
    forall i | 0 <= i < |cs| && cs[i] != null
      ensures |cs[i].rules| <= |n.rules|
    {
      assert cs[i] == n.children[i];
    }
    RuleSumBound(cs, |n.rules|);
  }

  /** Children holding at most m rules each hold at most m times their number together. */
  lemma {:induction false} RuleSumBound(cs: seq<TrieNode?>, m: nat)
    requires forall i :: 0 <= i < |cs| && cs[i] != null ==> |cs[i].rules| <= m
    ensures RuleSum(cs) <= |cs| * m
    decreases |cs|
  {
    if |cs| > 0 {
      var init := cs[..|cs| - 1];
      assert forall i :: 0 <= i < |init| ==> init[i] == cs[i];
      RuleSumBound(init, m);
      MulStep(|cs|, m);
    }
  }

  lemma MulStep(k: nat, m: nat)
    requires k > 0
    ensures (k - 1) * m + m == k * m
  {
  }

  /**
   * A value of the box lies in the piece `search` computes for it, and
   * that piece does not wrap, when the pieces fit into the box or are of
   * size one (the two outcomes of `calcPieceSize`).
   */
  lemma PieceContains(b: Range, v: nat, piece: nat, amount: nat)
    requires b.min <= v <= b.max < Limit32 && piece > 0
    requires PieceIndex(v, b.min, piece) < amount
    requires piece * amount <= BoxSize(b) || piece == 1
    ensures Match(PieceBox(b, true, piece, PieceIndex(v, b.min, piece)), v)
  {
    var off := v - b.min;
    SmallMod(off, Limit32);
    var c := off / piece;
    assert PieceIndex(v, b.min, piece) == c;
    DivBounds(off, piece);
    var low, high := c * piece, (c + 1) * piece;
    assert low <= off < high;
    var start := b.min + low;
    SmallMod(start, Limit32);
    assert Add32(b.min, c * piece) == start;
    if piece != 1 {
      PieceEndFits(b, c, piece, amount);
    }
  }

  /** Piece c < amount ends inside the box when the pieces fit into it. */
  lemma PieceEndFits(b: Range, c: nat, piece: nat, amount: nat)
    requires b.min <= b.max < Limit32 && piece > 0 && c < amount
    requires piece * amount <= BoxSize(b)
    ensures b.min + c * piece + piece - 1 <= b.max
    ensures Add32(b.min + c * piece, piece - 1) == b.min + c * piece + piece - 1
  {
    SmallMod(b.max - b.min, Limit32);
    MulLe(c + 1, amount, piece);
    assert (c + 1) * piece == c * piece + piece;
    SmallMod(b.min + c * piece + piece - 1, Limit32);
  }

  /** Multiplication by a natural number is monotone. */
  lemma MulLe(x: nat, y: nat, z: nat)
    requires x <= y
    ensures x * z <= y * z
  {
    assert y * z == x * z + (y - x) * z;
  }

  /**
   * The point of `cut` and `search` together: for a header of the node's
   * box, searching a freshly cut node gives the first matching rule of the
   * node itself, unless the header falls past the last piece, where the
   * child index is out of range and the search fails.
   */
  lemma CutClassifies(n: TrieNode, h: Header, amount: nat)
    requires n.Valid() && n.CutChildren(amount) && amount > 0
    requires (n.cutDimension == 1 || n.cutDimension == 2) && n.cutPieceSize > 0
    requires n.cutPieceSize * amount <= n.CutSize() || n.cutPieceSize == 1
    requires n.box1.min <= n.box1.max < Limit32 && n.box2.min <= n.box2.max < Limit32
    requires InBox(h, n.box1, n.box2)
    ensures n.Lookup(h) ==
      if n.ChildIndex(h) < amount then Ok(FirstIndex(n.rules, h))
      else Err(ChildIndexError)
  {
    var c := n.ChildIndex(h);
    if c < amount {
      var child := n.children[c];
      assert child in n.children;
      if n.cutDimension == 1 {
        PieceContains(n.box1, h.addrSrc, n.cutPieceSize, amount);
      } else {
        PieceContains(n.box2, h.addrDest, n.cutPieceSize, amount);
      }
      assert InBox(h, child.box1, child.box2);
      OverlappingKeepsFirstMatch(n.rules, h, child.box1, child.box2);
    }
  }

  /**
   * Piece c of a box cut into pieces of `piece` values (32-bit arithmetic);
   * a dimension that is not cut keeps the whole box.
   */
  function PieceBox(b: Range, isCut: bool, piece: nat, c: nat): Range
  {
    if !isCut then b
    else
      var start := Add32(b.min, c * piece);
      Range(start, Add32(start, piece - 1))
  }

  /** The piece a value falls into: its 32-bit offset from the box minimum over the piece size. */
  function PieceIndex(v: nat, min: nat, piece: nat): nat
    requires piece > 0
  {
    ((v - min) % Limit32) / piece
  }

  /** The leaf part of `search`: the rules are tried in order and the first match's index is reported. */
  method LeafSearch(rules: seq<RangeRule>, h: Header) returns (r: Option<nat>)
    ensures r == FirstIndex(rules, h)
  {
    var i := 0;
    while i < |rules|
      invariant 0 <= i <= |rules|
      invariant forall j :: 0 <= j < i ==> !RuleMatch(rules[j], h)
    {
      if RuleMatch(rules[i], h) {
        return Some(rules[i].index);
      }
      i := i + 1;
    }
    return None;
  }

  /** Floor division bounds: q * d <= n < (q + 1) * d for q = n / d. */
  lemma DivBounds(n: nat, d: nat)
    requires d > 0
    ensures (n / d) * d <= n < (n / d + 1) * d
    ensures n / d == 0 <==> n < d
  {
    var q, r := n / d, n % d;
    assert n == d * q + r;
    assert (q + 1) * d == q * d + d;
    if n < d {
      DivModUnique(n, d, 0, n);
    }
  }
}
