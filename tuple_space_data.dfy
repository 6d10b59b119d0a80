/**
 * The data of the tuple space search: prefixes of a fixed-width field, the
 * packed tuple of prefix lengths, five-tuple prefix rules and the hash map
 * holding the rules of one tuple, with its buckets kept sorted by rule index.
 */
module TupleSpaceData {
  import opened BitOps
  import opened Sequences
  import opened Results
  import D = Data5tpl

  // ---------------------------------------------------------------------
  // Prefixes
  // ---------------------------------------------------------------------

  /**
   * `Prefix<T>` over a field of `bits` bits: the value, the shift that
   * drops its host bits, whether it is a wildcard, and the shifted value.
   */
  datatype Prefix = Prefix(value: nat, shiftbits: nat, wildcard: bool, shiftval: nat)

  /** The prefix constructor: a prefix of length w keeps the top w of `bits` bits. */
  function MakePrefix(val: nat, w: nat, bits: nat): (p: Prefix)
    requires w <= bits
    ensures p.value == val && p.shiftbits == bits - w
    ensures p.wildcard <==> w == 0
    ensures WfPrefix(p, bits)
  {
    var sb := bits - w;
    Prefix(val, sb, sb == bits, if sb == bits then 0 else Shr(val, sb))
  }

  /** What every constructed prefix satisfies: a wildcard shifts out the whole field and keeps 0. */
  predicate WfPrefix(p: Prefix, bits: nat)
  {
    p.shiftbits <= bits && (p.wildcard <==> p.shiftbits == bits) && (p.wildcard ==> p.shiftval == 0)
  }

  /** `Prefix::match`: a wildcard, or the value shifted like the prefix equals the shifted prefix. */
  predicate PrefixMatch(p: Prefix, v: nat)
  {
    p.wildcard || Shr(v, p.shiftbits) == p.shiftval
  }

  /** A field value shifted by the field width is zero. */
  lemma ShrAll(v: nat, bits: nat)
    requires v < Pow2(bits)
    ensures Shr(v, bits) == 0
  {
    DivModUnique(v, Pow2(bits), 0, v);
  }

  /** A prefix of length w matches a field value iff their top w bits agree (a wildcard matches all). */
  lemma PrefixMatchMeaning(val: nat, w: nat, bits: nat, v: nat)
    requires w <= bits && val < Pow2(bits) && v < Pow2(bits)
    ensures PrefixMatch(MakePrefix(val, w, bits), v) <==> Shr(v, bits - w) == Shr(val, bits - w)
  {
    if w == 0 {
      ShrAll(v, bits);
      ShrAll(val, bits);
    }
  }

  /** With the full field width only the equal value matches. */
  lemma FullWidthMatch(val: nat, bits: nat, v: nat)
    requires val < Pow2(bits) && v < Pow2(bits)
    ensures PrefixMatch(MakePrefix(val, bits, bits), v) <==> v == val
  {
    PrefixMatchMeaning(val, bits, bits, v);
  }

  // ---------------------------------------------------------------------
  // The packed tuple of prefix lengths
  // ---------------------------------------------------------------------

  /** `Tuple5`: the five prefix lengths packed into one 32-bit word. */
  datatype Tuple5 = Tuple5(bitwidthmap: nat)

  /**
   * The packing constructor: the lengths are cut to 6, 6, 5, 5 and 4 bits
   * (`& 0x3F` is `% 64`, and so on) and placed at bit 20, 14, 9, 4 and 0;
   * the fields do not overlap, so or-ing them is adding them.
   */
  function MakeTuple5(w1: nat, w2: nat, w3: nat, w4: nat, w5: nat): Tuple5
  {
    Tuple5((w1 % 64) * 0x10_0000 + (w2 % 64) * 0x4000 + (w3 % 32) * 0x200 + (w4 % 32) * 0x10 + w5 % 16)
  }

  /** `getWidth1` to `getWidth5`. */
  function Width1(t: Tuple5): nat { t.bitwidthmap / 0x10_0000 }
  function Width2(t: Tuple5): nat { (t.bitwidthmap / 0x4000) % 64 }
  function Width3(t: Tuple5): nat { (t.bitwidthmap / 0x200) % 32 }
  function Width4(t: Tuple5): nat { (t.bitwidthmap / 0x10) % 32 }
  function Width5(t: Tuple5): nat { t.bitwidthmap % 16 }

  /** Packing and reading back gives the cut lengths, and the packed word has 26 bits. */
  lemma TupleRoundTrip(w1: nat, w2: nat, w3: nat, w4: nat, w5: nat)
    ensures var t := MakeTuple5(w1, w2, w3, w4, w5);
      Width1(t) == w1 % 64 && Width2(t) == w2 % 64 && Width3(t) == w3 % 32 &&
      Width4(t) == w4 % 32 && Width5(t) == w5 % 16 && t.bitwidthmap < 0x400_0000
  {
    var a, b, c, d, e := w1 % 64, w2 % 64, w3 % 32, w4 % 32, w5 % 16;
    var m := MakeTuple5(w1, w2, w3, w4, w5).bitwidthmap;
    DivModUnique(m, 0x10_0000, a, b * 0x4000 + c * 0x200 + d * 0x10 + e);
    DivModUnique(m, 0x4000, a * 64 + b, c * 0x200 + d * 0x10 + e);
    DivModUnique(a * 64 + b, 64, a, b);
    DivModUnique(m, 0x200, a * 0x800 + b * 0x20 + c, d * 0x10 + e);
    DivModUnique(a * 0x800 + b * 0x20 + c, 32, a * 64 + b, c);
    DivModUnique(m, 0x10, a * 0x1_0000 + b * 0x400 + c * 0x20 + d, e);
    DivModUnique(a * 0x1_0000 + b * 0x400 + c * 0x20 + d, 32, a * 0x800 + b * 0x20 + c, d);
    DivModUnique(m, 16, a * 0x1_0000 + b * 0x400 + c * 0x20 + d, e);
  }

  /**
   * `Map::responsible`: the tuples agree under the mask 0xFFFFC000, that
   * is, in bits 14 to 31 of the 32-bit word, the first two lengths.
   */
  predicate Responsible(x: Tuple5, y: Tuple5)
  {
    x.bitwidthmap / 0x4000 == y.bitwidthmap / 0x4000
  }

  /** Bits 20 and up are read off the bits from 14 up. */
  lemma Width1OfUpper(t: Tuple5)
    ensures Width1(t) == (t.bitwidthmap / 0x4000) / 64
  {
    var m := t.bitwidthmap;
    var q, r := m / 0x4000, m % 0x4000;
    var q2, r2 := q / 64, q % 64;
    assert m == 0x10_0000 * q2 + (0x4000 * r2 + r);
    DivModUnique(m, 0x10_0000, q2, 0x4000 * r2 + r);
  }

  /** Responsible tuples have the same first two lengths. */
  lemma ResponsibleWidths(x: Tuple5, y: Tuple5)
    requires Responsible(x, y)
    ensures Width1(x) == Width1(y) && Width2(x) == Width2(y)
  {
    Width1OfUpper(x);
    Width1OfUpper(y);
  }

  /** For packed tuples, a map is responsible iff the first two (cut) lengths agree. */
  lemma ResponsibleMeaning(a1: nat, a2: nat, a3: nat, a4: nat, a5: nat, b1: nat, b2: nat, b3: nat, b4: nat, b5: nat)
    ensures Responsible(MakeTuple5(a1, a2, a3, a4, a5), MakeTuple5(b1, b2, b3, b4, b5)) <==>
      a1 % 64 == b1 % 64 && a2 % 64 == b2 % 64
  {
    var x, y := MakeTuple5(a1, a2, a3, a4, a5), MakeTuple5(b1, b2, b3, b4, b5);
    TupleRoundTrip(a1, a2, a3, a4, a5);
    TupleRoundTrip(b1, b2, b3, b4, b5);
    Width1OfUpper(x);
    Width1OfUpper(y);
    var qx, qy := x.bitwidthmap / 0x4000, y.bitwidthmap / 0x4000;
    assert qx == 64 * (qx / 64) + qx % 64;
    assert qy == 64 * (qy / 64) + qy % 64;
  }

  // ---------------------------------------------------------------------
  // Prefix rules
  // ---------------------------------------------------------------------

  /** `Rule5tpl`: an index, five prefixes (32, 32, 16, 16 and 8 bits) and the rule's tuple. */
  datatype PrefixRule = PrefixRule(index: nat, check1: Prefix, check2: Prefix, check3: Prefix,
                                   check4: Prefix, check5: Prefix, tuplemap: Tuple5)

  /** A (value, prefix length) pair as the generic atoms produce them. */
  type PrefixPair = (nat, nat)

  /** The field widths of the five tuple. */
  function FieldBits(k: nat): nat
  {
    if k < 2 then 32 else if k < 4 then 16 else 8
  }

  /** Five pairs whose prefix lengths fit their fields. */
  predicate FitPairs(c: seq<PrefixPair>)
  {
    |c| == 5 && forall k :: 0 <= k < 5 ==> c[k].1 <= FieldBits(k)
  }

  /**
   * The `Rule5tpl` constructor on five pairs: each value is cast to its
   * field type (`% 2^bits`), each prefix built with its length, and the
   * tuple packed from the five lengths.
   */
  function MakePrefixRule(idx: nat, c: seq<PrefixPair>): PrefixRule
    requires FitPairs(c)
  {
    assert c[0].1 <= 32 && c[1].1 <= 32 && c[2].1 <= 16 && c[3].1 <= 16 && c[4].1 <= 8 by {
      assert FieldBits(0) == 32 && FieldBits(1) == 32 && FieldBits(2) == 16 && FieldBits(3) == 16;
    }
    PrefixRule(idx,
      MakePrefix(c[0].0 % Limit32, c[0].1, 32), MakePrefix(c[1].0 % Limit32, c[1].1, 32),
      MakePrefix(c[2].0 % 0x1_0000, c[2].1, 16), MakePrefix(c[3].0 % 0x1_0000, c[3].1, 16),
      MakePrefix(c[4].0 % 0x100, c[4].1, 8),
      MakeTuple5(c[0].1, c[1].1, c[2].1, c[3].1, c[4].1))
  }

  /**
   * What the hashing relies on: the first two prefixes are well formed and
   * shift by 32 minus the lengths recorded in the rule's tuple.
   */
  predicate WfRule(r: PrefixRule)
  {
    WfPrefix(r.check1, 32) && WfPrefix(r.check2, 32) &&
    Width1(r.tuplemap) <= 32 && Width2(r.tuplemap) <= 32 &&
    r.check1.shiftbits == 32 - Width1(r.tuplemap) && r.check2.shiftbits == 32 - Width2(r.tuplemap)
  }

  /** Every constructed rule is well formed and carries the given index. */
  lemma MadeRuleWf(idx: nat, c: seq<PrefixPair>)
    requires FitPairs(c)
    ensures WfRule(MakePrefixRule(idx, c)) && MakePrefixRule(idx, c).index == idx
  {
    assert c[0].1 <= 32 && c[1].1 <= 32 by {
      assert FieldBits(0) == 32 && FieldBits(1) == 32;
    }
    TupleRoundTrip(c[0].1, c[1].1, c[2].1, c[3].1, c[4].1);
    SmallMod(c[0].1, 64);
    SmallMod(c[1].1, 64);
  }

  /** `getHash`: the xor of the first two shifted values. */
  function Hash(r: PrefixRule): nat
  {
    Xor(r.check1.shiftval, r.check2.shiftval)
  }

  /** `PrefixRule::match`: all five prefixes match their header fields. */
  predicate RuleMatch(r: PrefixRule, h: D.HeaderTuple)
  {
    PrefixMatch(r.check1, h.addrSrc) && PrefixMatch(r.check2, h.addrDest) &&
    PrefixMatch(r.check3, h.portSrc) && PrefixMatch(r.check4, h.portDest) &&
    PrefixMatch(r.check5, h.protocol)
  }

  /** `Map::calcHash`: the xor of the two shifted addresses, a wildcard contributing 0. */
  function CalcHash(shiftS: nat, wildS: bool, shiftT: nat, wildT: bool, h: D.HeaderTuple): nat
  {
    Xor(if wildS then 0 else Shr(h.addrSrc, shiftS), if wildT then 0 else Shr(h.addrDest, shiftT))
  }

  /** A rule matching a header hashes like the header, under the rule's own shifts. */
  lemma HashOfMatch(r: PrefixRule, h: D.HeaderTuple, shiftS: nat, wildS: bool, shiftT: nat, wildT: bool)
    requires WfRule(r) && RuleMatch(r, h)
    requires shiftS == r.check1.shiftbits && (wildS <==> shiftS == 32)
    requires shiftT == r.check2.shiftbits && (wildT <==> shiftT == 32)
    ensures CalcHash(shiftS, wildS, shiftT, wildT, h) == Hash(r)
  {
  }

  // ---------------------------------------------------------------------
  // Bucket lists
  // ---------------------------------------------------------------------

  /** A bucket list is ordered by non-decreasing rule index. */
  predicate Sorted(b: seq<PrefixRule>)
  {
    forall i, j :: 0 <= i < j < |b| ==> b[i].index <= b[j].index
  }

  /** The index of the first rule of the list matching the header, if any. */
  function FirstMatchIndex(b: seq<PrefixRule>, h: D.HeaderTuple): (r: Option<nat>)
    ensures r.None? <==> forall j :: 0 <= j < |b| ==> !RuleMatch(b[j], h)
    ensures r.Some? ==>
      (exists j :: 0 <= j < |b| && RuleMatch(b[j], h) && b[j].index == r.value &&
         forall k :: 0 <= k < j ==> !RuleMatch(b[k], h))
  {
    if |b| == 0 then None
    else if RuleMatch(b[0], h) then Some(b[0].index)
    else
      var r := FirstMatchIndex(b[1..], h);
      assert forall j :: 1 <= j < |b| ==> b[1..][j - 1] == b[j];
      r
  }

  /** In a sorted list the first match has the least index of all matches. */
  lemma SortedFirstIsLeast(b: seq<PrefixRule>, h: D.HeaderTuple, j: nat)
    requires Sorted(b) && j < |b| && RuleMatch(b[j], h)
    ensures FirstMatchIndex(b, h).Some? && FirstMatchIndex(b, h).value <= b[j].index
  {
    var first := FirstMatchIndex(b, h).value;
    var j0 :| 0 <= j0 < |b| && RuleMatch(b[j0], h) && b[j0].index == first &&
      forall k :: 0 <= k < j0 ==> !RuleMatch(b[k], h);
    assert j0 <= j;
  }

  /**
   * `insert` into one bucket: the rule goes before the first rule with a
   * larger index, that is, after all rules with an index up to its own.
   */
  function InsertSorted(b: seq<PrefixRule>, r: PrefixRule): seq<PrefixRule>
  {
    if |b| == 0 then [r]
    else if b[0].index > r.index then [r] + b
    else [b[0]] + InsertSorted(b[1..], r)
  }

  /** Insertion adds exactly the new rule. */
  lemma {:induction false} InsertSortedContents(b: seq<PrefixRule>, r: PrefixRule)
    ensures multiset(InsertSorted(b, r)) == multiset(b) + multiset{r}
    decreases |b|
  {
    if |b| > 0 {
      InsertSortedContents(b[1..], r);
      assert b == [b[0]] + b[1..];
    }
  }

  /** Insertion keeps a lower bound of all indices. */
  lemma {:induction false} InsertSortedBound(b: seq<PrefixRule>, r: PrefixRule, lo: nat)
    requires lo <= r.index && forall j :: 0 <= j < |b| ==> lo <= b[j].index
    ensures forall j :: 0 <= j < |InsertSorted(b, r)| ==> lo <= InsertSorted(b, r)[j].index
    decreases |b|
  {
    if |b| > 0 && b[0].index <= r.index {
      InsertSortedBound(b[1..], r, lo);
    }
  }

  /** Insertion keeps a bucket sorted. */
  lemma {:induction false} InsertSortedSorted(b: seq<PrefixRule>, r: PrefixRule)
    requires Sorted(b)
    ensures Sorted(InsertSorted(b, r))
    decreases |b|
  {
    if |b| > 0 && b[0].index <= r.index {
      var rest := InsertSorted(b[1..], r);
      InsertSortedSorted(b[1..], r);
      InsertSortedBound(b[1..], r, b[0].index);
      var nb := [b[0]] + rest;
      assert InsertSorted(b, r) == nb;
      forall i, j | 0 <= i < j < |nb|
        ensures nb[i].index <= nb[j].index
      {
        assert nb[j] == rest[j - 1];
        if i > 0 {
          assert nb[i] == rest[i - 1];
        }
      }
    }
  }

  /** Inserting after a run of rules with indices up to the new one's. */
  lemma {:induction false} InsertSortedSkip(b: seq<PrefixRule>, r: PrefixRule, k: nat)
    requires k <= |b| && forall j :: 0 <= j < k ==> b[j].index <= r.index
    ensures InsertSorted(b, r) == b[..k] + InsertSorted(b[k..], r)
    decreases k
  {
    if k > 0 {
      var tail := b[1..];
      assert forall j :: 0 <= j < k - 1 ==> tail[j] == b[j + 1];
      InsertSortedSkip(tail, r, k - 1);
      var rest := InsertSorted(tail[k - 1..], r);
      assert InsertSorted(b, r) == [b[0]] + (tail[..k - 1] + rest);
      AppendAssoc([b[0]], tail[..k - 1], rest);
      assert tail[k - 1..] == b[k..];
      assert [b[0]] + tail[..k - 1] == b[..k];
    }
  }

  /** `incrementIndex` on one rule: indices from `oldIndex` on move up by one. */
  function Raise(r: PrefixRule, oldIndex: nat): PrefixRule
  {
    if r.index >= oldIndex then r.(index := r.index + 1) else r
  }

  /** `decrementIndex` on one rule: indices above `oldIndex` move down by one. */
  function Lower(r: PrefixRule, oldIndex: nat): PrefixRule
  {
    if r.index > oldIndex then r.(index := r.index - 1) else r
  }

  function RaiseAll(b: seq<PrefixRule>, oldIndex: nat): (nb: seq<PrefixRule>)
    ensures |nb| == |b| && forall j :: 0 <= j < |b| ==> nb[j] == Raise(b[j], oldIndex)
  {
    seq(|b|, j requires 0 <= j < |b| => Raise(b[j], oldIndex))
  }

  function LowerAll(b: seq<PrefixRule>, oldIndex: nat): (nb: seq<PrefixRule>)
    ensures |nb| == |b| && forall j :: 0 <= j < |b| ==> nb[j] == Lower(b[j], oldIndex)
  {
    seq(|b|, j requires 0 <= j < |b| => Lower(b[j], oldIndex))
  }

  /** Both index shifts are monotone, so they keep a bucket sorted. */
  lemma ShiftsKeepSorted(b: seq<PrefixRule>, oldIndex: nat)
    requires Sorted(b)
    ensures Sorted(RaiseAll(b, oldIndex)) && Sorted(LowerAll(b, oldIndex))
  {
    var up, down := RaiseAll(b, oldIndex), LowerAll(b, oldIndex);
    forall i, j | 0 <= i < j < |b|
      ensures up[i].index <= up[j].index && down[i].index <= down[j].index
    {
      assert b[i].index <= b[j].index;
    }
  }

  /** `remove` on one bucket, as intended: every rule with the index goes, the others keep their order. */
  function Removed(b: seq<PrefixRule>, idx: nat): (nb: seq<PrefixRule>)
    ensures |nb| <= |b|
    ensures forall x :: x in nb <==> x in b && x.index != idx
  {
    if |b| == 0 then []
    else if b[0].index == idx then Removed(b[1..], idx)
    else
      assert b == [b[0]] + b[1..];
      [b[0]] + Removed(b[1..], idx)
  }

  /** Removal keeps a bucket sorted. */
  lemma {:induction false} RemovedSorted(b: seq<PrefixRule>, idx: nat)
    requires Sorted(b)
    ensures Sorted(Removed(b, idx))
    decreases |b|
  {
    if |b| > 0 {
      RemovedSorted(b[1..], idx);
      if b[0].index != idx {
        var rest := Removed(b[1..], idx);
        var nb := [b[0]] + rest;
        forall i, j | 0 <= i < j < |nb|
          ensures nb[i].index <= nb[j].index
        {
          assert nb[j] == rest[j - 1] && nb[j] in rest;
          if i > 0 {
            assert nb[i] == rest[i - 1];
          } else {
            var k :| 0 <= k < |b| && b[k] == nb[j] && k > 0;
          }
        }
      }
    }
  }

  /**
   * What `remove` as written leaves allocated in one bucket: deleting a
   * rule runs its destructor, which deletes the rule it links to, and so
   * on, so besides every rule with the index all rules after the first
   * such rule are freed while the list still links to them.
   */
  function RemoveLiveAsWritten(b: seq<PrefixRule>, idx: nat): seq<PrefixRule>
  {
    if |b| == 0 || b[0].index == idx then [] else [b[0]] + RemoveLiveAsWritten(b[1..], idx)
  }

  /** Removing index 0 from the bucket [rule 0, rule 1] frees rule 1 as well, which should have stayed. */
  lemma RemoveAsWrittenFreesSuccessors()
    ensures var p := Prefix(0, 32, true, 0);
      var t := MakeTuple5(0, 0, 0, 0, 0);
      var r0, r1 := PrefixRule(0, p, p, p, p, p, t), PrefixRule(1, p, p, p, p, p, t);
      RemoveLiveAsWritten([r0, r1], 0) == [] && Removed([r0, r1], 0) == [r1]
  {
    var p := Prefix(0, 32, true, 0);
    var t := MakeTuple5(0, 0, 0, 0, 0);
    var r0, r1 := PrefixRule(0, p, p, p, p, p, t), PrefixRule(1, p, p, p, p, p, t);
    assert [r0, r1][1..] == [r1];
    assert [r1][1..] == [];
  }

  // ---------------------------------------------------------------------
  // The rules a set of buckets holds
  // ---------------------------------------------------------------------

  /** Every rule stored in some bucket. */
  function BucketsContents(s: seq<seq<PrefixRule>>): set<PrefixRule>
  {
    set b, j | 0 <= b < |s| && 0 <= j < |s[b]| :: s[b][j]
  }

  /** A rule is stored iff some bucket lists it. */
  lemma InBucketsContents(s: seq<seq<PrefixRule>>, x: PrefixRule)
    ensures x in BucketsContents(s) <==> exists b :: 0 <= b < |s| && x in s[b]
  {
    if exists b :: 0 <= b < |s| && x in s[b] {
      var b :| 0 <= b < |s| && x in s[b];
      var j :| 0 <= j < |s[b]| && s[b][j] == x;
    }
  }

  /** Inserting into one bucket adds exactly the rule to the stored rules. */
  lemma InsertedContents(s: seq<seq<PrefixRule>>, index: nat, r: PrefixRule)
    requires index < |s|
    ensures BucketsContents(s[index := InsertSorted(s[index], r)]) == BucketsContents(s) + {r}
  {
    var s2 := s[index := InsertSorted(s[index], r)];
    InsertSortedContents(s[index], r);
    forall x
      ensures x in BucketsContents(s2) <==> x in BucketsContents(s) + {r}
    {
      InBucketsContents(s, x);
      InBucketsContents(s2, x);
      assert x in s2[index] <==> x in multiset(s2[index]);
      assert x in s[index] <==> x in multiset(s[index]);
      if x in BucketsContents(s2) {
        var b :| 0 <= b < |s2| && x in s2[b];
        if b != index {
          assert x in s[b];
        }
      }
      if x in BucketsContents(s) {
        var b :| 0 <= b < |s| && x in s[b];
        assert x in s2[b];
      }
      if x == r {
        assert x in s2[index];
      }
    }
  }

  /** Removing an index from every bucket removes exactly the rules with that index. */
  lemma RemovedContents(s: seq<seq<PrefixRule>>, idx: nat, s2: seq<seq<PrefixRule>>)
    requires |s2| == |s| && forall b :: 0 <= b < |s| ==> s2[b] == Removed(s[b], idx)
    ensures BucketsContents(s2) == set x | x in BucketsContents(s) && x.index != idx
  {
    forall x
      ensures x in BucketsContents(s2) <==> x in BucketsContents(s) && x.index != idx
    {
      InBucketsContents(s, x);
      InBucketsContents(s2, x);
    }
  }

  /** Raising the indices of every bucket raises the index of every stored rule. */
  lemma RaisedContents(s: seq<seq<PrefixRule>>, oldIndex: nat, s2: seq<seq<PrefixRule>>)
    requires |s2| == |s| && forall b :: 0 <= b < |s| ==> s2[b] == RaiseAll(s[b], oldIndex)
    ensures BucketsContents(s2) == set x | x in BucketsContents(s) :: Raise(x, oldIndex)
  {
    forall y | y in BucketsContents(s2)
      ensures y in set x | x in BucketsContents(s) :: Raise(x, oldIndex)
    {
      var b, j :| 0 <= b < |s2| && 0 <= j < |s2[b]| && s2[b][j] == y;
      assert s[b][j] in BucketsContents(s);
    }
    forall x | x in BucketsContents(s)
      ensures Raise(x, oldIndex) in BucketsContents(s2)
    {
      var b, j :| 0 <= b < |s| && 0 <= j < |s[b]| && s[b][j] == x;
      assert s2[b][j] == Raise(x, oldIndex);
    }
  }

  /** Lowering the indices of every bucket lowers the index of every stored rule. */
  lemma LoweredContents(s: seq<seq<PrefixRule>>, oldIndex: nat, s2: seq<seq<PrefixRule>>)
    requires |s2| == |s| && forall b :: 0 <= b < |s| ==> s2[b] == LowerAll(s[b], oldIndex)
    ensures BucketsContents(s2) == set x | x in BucketsContents(s) :: Lower(x, oldIndex)
  {
    forall y | y in BucketsContents(s2)
      ensures y in set x | x in BucketsContents(s) :: Lower(x, oldIndex)
    {
      var b, j :| 0 <= b < |s2| && 0 <= j < |s2[b]| && s2[b][j] == y;
      assert s[b][j] in BucketsContents(s);
    }
    forall x | x in BucketsContents(s)
      ensures Lower(x, oldIndex) in BucketsContents(s2)
    {
      var b, j :| 0 <= b < |s| && 0 <= j < |s[b]| && s[b][j] == x;
      assert s2[b][j] == Lower(x, oldIndex);
    }
  }

  /** The indices of the rules of a set that match a header. */
  function MatchesIn(rs: set<PrefixRule>, h: D.HeaderTuple): set<nat>
  {
    set x | x in rs && RuleMatch(x, h) :: x.index
  }

  // ---------------------------------------------------------------------
  // One bucket at a time
  // ---------------------------------------------------------------------

  /** The list walk of `incrementIndex` over one bucket. */
  method RaiseBucket(bucket: seq<PrefixRule>, oldIndex: nat) returns (nb: seq<PrefixRule>)
    ensures nb == RaiseAll(bucket, oldIndex)
  {
    nb := bucket;
    var j := 0;
    while j < |nb|
      invariant 0 <= j <= |nb| == |bucket|
      invariant forall k :: 0 <= k < j ==> nb[k] == Raise(bucket[k], oldIndex)
      invariant forall k :: j <= k < |nb| ==> nb[k] == bucket[k]
    {
      if nb[j].index >= oldIndex {
        nb := nb[j := nb[j].(index := nb[j].index + 1)];
      }
      j := j + 1;
    }
  }

  /** The list walk of `decrementIndex` over one bucket. */
  method LowerBucket(bucket: seq<PrefixRule>, oldIndex: nat) returns (nb: seq<PrefixRule>)
    ensures nb == LowerAll(bucket, oldIndex)
  {
    nb := bucket;
    var j := 0;
    while j < |nb|
      invariant 0 <= j <= |nb| == |bucket|
      invariant forall k :: 0 <= k < j ==> nb[k] == Lower(bucket[k], oldIndex)
      invariant forall k :: j <= k < |nb| ==> nb[k] == bucket[k]
    {
      if nb[j].index > oldIndex {
        nb := nb[j := nb[j].(index := nb[j].index - 1)];
      }
      j := j + 1;
    }
  }

  /**
   * The list walk of `insert` into a non-empty bucket whose head does not
   * come after the rule: it goes before the first later rule with a larger
   * index, or at the end.
   */
  method InsertIntoBucket(bucket: seq<PrefixRule>, r: PrefixRule) returns (nb: seq<PrefixRule>)
    ensures nb == InsertSorted(bucket, r)
  {
    if |bucket| == 0 {
      return [r];
    } else if bucket[0].index > r.index {
      return [r] + bucket;
    }
    var next := 1;
    while next < |bucket|
      invariant 1 <= next <= |bucket|
      invariant forall j :: 0 <= j < next ==> bucket[j].index <= r.index
    {
      if r.index < bucket[next].index {
        break;
      }
      next := next + 1;
    }
    InsertSortedSkip(bucket, r, next);
    nb := bucket[..next] + [r] + bucket[next..];
  }

  /**
   * The intended `remove` on one bucket: leading rules with the index are
   * unlinked from the bucket head, then the rest of the list is walked and
   * every further rule with the index is unlinked.
   */
  method RemoveFromBucket(bucket: seq<PrefixRule>, idx: nat) returns (nb: seq<PrefixRule>)
    ensures nb == Removed(bucket, idx)
  {
    var rest := bucket;
    while |rest| > 0 && rest[0].index == idx
      invariant Removed(rest, idx) == Removed(bucket, idx)
    {
      rest := rest[1..];
    }
    if |rest| == 0 {
      return [];
    }
    nb := [rest[0]];
    var j := 1;
    while j < |rest|
      invariant 1 <= j <= |rest|
      invariant Removed(bucket, idx) == nb + Removed(rest[j..], idx)
    {
      RemoveWalk(Removed(bucket, idx), nb, rest, j, idx);
      if rest[j].index != idx {
        nb := nb + [rest[j]];
      }
      j := j + 1;
    }
    assert rest[j..] == [];
  }

  /** One step of the walk of `remove`: a further rule with the index is dropped, any other kept. */
  lemma RemoveWalk(full: seq<PrefixRule>, nb: seq<PrefixRule>, s: seq<PrefixRule>, j: nat, idx: nat)
    requires j < |s| && full == nb + Removed(s[j..], idx)
    ensures s[j].index == idx ==> full == nb + Removed(s[j + 1..], idx)
    ensures s[j].index != idx ==> full == (nb + [s[j]]) + Removed(s[j + 1..], idx)
  {
    RemovedStep(s, j, idx);
    if s[j].index != idx {
      AppendAssoc(nb, [s[j]], Removed(s[j + 1..], idx));
    }
  }

  /** Removing from a suffix handles its first rule, then the rest. */
  lemma RemovedStep(s: seq<PrefixRule>, j: nat, idx: nat)
    requires j < |s|
    ensures s[j].index == idx ==> Removed(s[j..], idx) == Removed(s[j + 1..], idx)
    ensures s[j].index != idx ==> Removed(s[j..], idx) == [s[j]] + Removed(s[j + 1..], idx)
  {
    assert s[j..][1..] == s[j + 1..];
    assert s[j..][0] == s[j];
  }

  // ---------------------------------------------------------------------
  // The hash map of one tuple
  // ---------------------------------------------------------------------

  /**
   * `Map`: `capacity` buckets, each a list of the tuple's rules ordered by
   * index (the linked lists are modelled by sequences), the shifts of the
   * first two fields derived from the tuple, and the least index inserted.
   * The shifts of the other three fields are computed by the source but
   * never used, and are left out.
   */
  class Map {
    const capacity: nat
    const tuplemap: Tuple5
    const storage: array<seq<PrefixRule>>
    const shiftS: nat
    const shiftT: nat
    const wildcardS: bool
    const wildcardT: bool
    var minIndex: nat

    /** The constant part: one bucket per slot and the shifts that the constructor derives from the tuple. */
    predicate Shape()
    {
      storage.Length == capacity && Width1(tuplemap) <= 32 && Width2(tuplemap) <= 32 &&
      shiftS == 32 - Width1(tuplemap) && shiftT == 32 - Width2(tuplemap) &&
      (wildcardS <==> shiftS == 32) && (wildcardT <==> shiftT == 32)
    }

    /** Rule r may sit in bucket b: it is well formed, belongs to the map's tuple and hashes to b. */
    predicate Placed(r: PrefixRule, b: nat)
    {
      WfRule(r) && Responsible(r.tuplemap, tuplemap) && capacity > 0 && Hash(r) % capacity == b
    }

    /** Every bucket is sorted by index and holds only rules placed in it. */
    ghost predicate Placement()
      reads storage
    {
      Shape() &&
      forall b :: 0 <= b < storage.Length ==>
        Sorted(storage[b]) && forall j :: 0 <= j < |storage[b]| ==> Placed(storage[b][j], b)
    }

    /** `minIndex` is at most the index of every stored rule. */
    ghost predicate MinBound()
      reads this, storage
    {
      forall b, j :: 0 <= b < storage.Length && 0 <= j < |storage[b]| ==> minIndex <= storage[b][j].index
    }

    /**
     * The invariant: the shape, and every bucket ok under `minIndex`. It is
     * held as a recursion over the buckets, which keeps it folded where a
     * caller only passes it on; `ValidIsPlacement` unfolds it.
     */
    ghost predicate Valid()
      reads this, storage
    {
      Shape() && BucketsOkBelow(storage[..], minIndex, storage.Length)
    }

    /** The rules the map stores. */
    ghost function Contents(): set<PrefixRule>
      reads storage
    {
      BucketsContents(storage[..])
    }

    /** The indices of the stored rules that match the header. */
    ghost function MatchIndices(h: D.HeaderTuple): set<nat>
      reads storage
    {
      set b, j | 0 <= b < storage.Length && 0 <= j < |storage[b]| && RuleMatch(storage[b][j], h) :: storage[b][j].index
    }

    /** The matching indices are those of the matching stored rules. */
    lemma MatchIndicesOfContents(h: D.HeaderTuple)
      ensures MatchIndices(h) == MatchesIn(Contents(), h)
    {
      var s := storage[..];
      forall i | i in MatchIndices(h)
        ensures i in MatchesIn(Contents(), h)
      {
        var b, j :| 0 <= b < storage.Length && 0 <= j < |storage[b]| && RuleMatch(storage[b][j], h) &&
          storage[b][j].index == i;
        assert s[b][j] in Contents();
      }
      forall i | i in MatchesIn(Contents(), h)
        ensures i in MatchIndices(h)
      {
        var x :| x in Contents() && RuleMatch(x, h) && x.index == i;
        var b, j :| 0 <= b < |s| && 0 <= j < |s[b]| && s[b][j] == x;
        assert storage[b][j] == x;
      }
    }

    /** No matching index lies below `minIndex`. */
    lemma MatchesAboveMin(h: D.HeaderTuple)
      requires Valid()
      ensures forall i :: i in MatchIndices(h) ==> minIndex <= i
    {
      ValidIsPlacement();
      forall i | i in MatchIndices(h)
        ensures minIndex <= i
      {
        var b, j :| 0 <= b < storage.Length && 0 <= j < |storage[b]| && RuleMatch(storage[b][j], h) &&
          storage[b][j].index == i;
      }
    }

    /** The constructor: empty buckets, shifts from the tuple, and `minIndex` set to `noIndex`. */
    constructor(capacity: nat, tuple: Tuple5, noIndex: nat)
      requires Width1(tuple) <= 32 && Width2(tuple) <= 32
      ensures this.capacity == capacity && tuplemap == tuple && minIndex == noIndex
      ensures Valid() && fresh(storage)
      ensures forall b :: 0 <= b < capacity ==> storage[b] == []
    {
      this.capacity := capacity;
      tuplemap := tuple;
      var a := new seq<PrefixRule>[capacity];
      var it := 0;
      while it < capacity
        invariant 0 <= it <= capacity
        invariant forall b :: 0 <= b < it ==> a[b] == []
      {
        a[it] := [];
        it := it + 1;
      }
      storage := a;
      shiftS := 32 - Width1(tuple);
      shiftT := 32 - Width2(tuple);
      wildcardS := 32 - Width1(tuple) == 32;
      wildcardT := 32 - Width2(tuple) == 32;
      minIndex := noIndex;
      new;
      ValidIsPlacement();
    }

    /** A stored rule matching a header sits in the bucket of the header's hash. */
    lemma MatchInHashBucket(h: D.HeaderTuple, b: nat, j: nat)
      requires Placement() && b < storage.Length && j < |storage[b]| && RuleMatch(storage[b][j], h)
      ensures b == CalcHash(shiftS, wildcardS, shiftT, wildcardT, h) % capacity
    {
      var r := storage[b][j];
      assert Placed(r, b);
      ResponsibleWidths(r.tuplemap, tuplemap);
      HashOfMatch(r, h, shiftS, wildcardS, shiftT, wildcardT);
    }

    /** The bucket `lookup` walks for a header. */
    function HashBucket(h: D.HeaderTuple): nat
      requires capacity > 0
    {
      CalcHash(shiftS, wildcardS, shiftT, wildcardT, h) % capacity
    }

    /** No match in the header's bucket means no match in the map. */
    lemma NoMatchOutsideHashBucket(h: D.HeaderTuple)
      requires Placement() && capacity > 0
      requires FirstMatchIndex(storage[HashBucket(h)], h).None?
      ensures MatchIndices(h) == {}
    {
      if MatchIndices(h) != {} {
        var i :| i in MatchIndices(h);
        var b, k :| 0 <= b < storage.Length && 0 <= k < |storage[b]| && RuleMatch(storage[b][k], h) &&
          storage[b][k].index == i;
        MatchInHashBucket(h, b, k);
        assert false;
      }
    }

    /** The first match of the header's bucket is the least matching index of the map. */
    lemma FirstOfHashBucketIsLeast(h: D.HeaderTuple)
      requires Placement() && capacity > 0
      requires FirstMatchIndex(storage[HashBucket(h)], h).Some?
      ensures var i := FirstMatchIndex(storage[HashBucket(h)], h).value;
        i in MatchIndices(h) && forall i' :: i' in MatchIndices(h) ==> i <= i'
    {
      var bucket := storage[HashBucket(h)];
      var first := FirstMatchIndex(bucket, h).value;
      var j :| 0 <= j < |bucket| && RuleMatch(bucket[j], h) && bucket[j].index == first;
      assert first in MatchIndices(h);
      forall i | i in MatchIndices(h)
        ensures first <= i
      {
        var b, k :| 0 <= b < storage.Length && 0 <= k < |storage[b]| && RuleMatch(storage[b][k], h) &&
          storage[b][k].index == i;
        MatchInHashBucket(h, b, k);
        SortedFirstIsLeast(bucket, h, k);
      }
    }

    /**
     * `lookup`: the header's bucket is walked and the first matching rule's
     * index returned, which is the least index of all matching rules of the
     * map; `noRuleIsMatching()` when none matches.
     */
    method Lookup(h: D.HeaderTuple) returns (idx: nat)
      requires Placement() && capacity > 0
      ensures MatchIndices(h) == {} ==> idx == NoRuleIsMatching
      ensures MatchIndices(h) != {} ==> idx in MatchIndices(h) && forall i :: i in MatchIndices(h) ==> idx <= i
    {
      var index := HashBucket(h);
      var bucket := storage[index];
      var j := 0;
      while j < |bucket|
        invariant 0 <= j <= |bucket|
        invariant forall k :: 0 <= k < j ==> !RuleMatch(bucket[k], h)
        invariant FirstMatchIndex(bucket, h) == FirstMatchIndex(bucket[j..], h)
      {
        assert bucket[j..][1..] == bucket[j + 1..];
        if RuleMatch(bucket[j], h) {
          idx := bucket[j].index;
          FirstOfHashBucketIsLeast(h);
          return;
        }
        j := j + 1;
      }
      idx := NoRuleIsMatching;
      NoMatchOutsideHashBucket(h);
    }

    /** Bucket b holds a sorted list of rules placed in it, none with an index below lo. */
    predicate BucketOk(bucket: seq<PrefixRule>, b: nat, lo: nat)
    {
      Sorted(bucket) && forall j :: 0 <= j < |bucket| ==> Placed(bucket[j], b) && lo <= bucket[j].index
    }

    /** The buckets s are all ok under lo. */
    predicate BucketsOk(s: seq<seq<PrefixRule>>, lo: nat)
    {
      forall b :: 0 <= b < |s| ==> BucketOk(s[b], b, lo)
    }

    /** The first n buckets of s are ok under lo, checked from the last one down. */
    predicate BucketsOkBelow(s: seq<seq<PrefixRule>>, lo: nat, n: nat)
      requires n <= |s|
      decreases n
    {
      n == 0 || (BucketsOkBelow(s, lo, n - 1) && BucketOk(s[n - 1], n - 1, lo))
    }

    lemma {:induction false} BelowIsBucketsOk(s: seq<seq<PrefixRule>>, lo: nat, n: nat)
      requires n <= |s|
      ensures BucketsOkBelow(s, lo, n) <==> forall b :: 0 <= b < n ==> BucketOk(s[b], b, lo)
      decreases n
    {
      if n > 0 {
        BelowIsBucketsOk(s, lo, n - 1);
      }
    }

    lemma ValidIsBucketsOk()
      ensures Valid() <==> Shape() && BucketsOk(storage[..], minIndex)
    {
      BelowIsBucketsOk(storage[..], minIndex, storage.Length);
    }

    lemma ValidIsPlacement()
      ensures Valid() <==> Placement() && MinBound()
    {
      ValidIsBucketsOk();
      assert forall b :: 0 <= b < storage.Length ==> storage[..][b] == storage[b];
    }

    /** Inserting a placed rule into its bucket, with the bound lowered to its index where needed. */
    lemma InsertKeepsBuckets(s: seq<seq<PrefixRule>>, r: PrefixRule, index: nat, lo: nat, lo2: nat)
      requires BucketsOk(s, lo) && index < |s| && Placed(r, index) && lo2 <= lo && lo2 <= r.index
      ensures BucketsOk(s[index := InsertSorted(s[index], r)], lo2)
    {
      var nb := InsertSorted(s[index], r);
      InsertSortedSorted(s[index], r);
      InsertSortedContents(s[index], r);
      forall j | 0 <= j < |nb|
        ensures Placed(nb[j], index) && lo2 <= nb[j].index
      {
        var x := nb[j];
        assert x in multiset(nb);
        if x != r {
          assert x in multiset(s[index]);
          var k :| 0 <= k < |s[index]| && s[index][k] == x;
        }
      }
    }

    /** Removing an index from every bucket, with the bound moved past it if it was the bound. */
    lemma RemoveKeepsBuckets(s: seq<seq<PrefixRule>>, idx: nat, lo: nat, s2: seq<seq<PrefixRule>>)
      requires BucketsOk(s, lo) && |s2| == |s| && forall b :: 0 <= b < |s| ==> s2[b] == Removed(s[b], idx)
      ensures BucketsOk(s2, if idx == lo then lo + 1 else lo)
    {
      forall b, j | 0 <= b < |s2| && 0 <= j < |s2[b]|
        ensures Placed(s2[b][j], b) && (if idx == lo then lo + 1 else lo) <= s2[b][j].index
      {
        var x := s2[b][j];
        assert x in Removed(s[b], idx);
        var k :| 0 <= k < |s[b]| && s[b][k] == x;
      }
      forall b | 0 <= b < |s2|
        ensures Sorted(s2[b])
      {
        RemovedSorted(s[b], idx);
      }
    }

    /**
     * `insert`: `minIndex` takes the rule's index if it is smaller, and the
     * rule goes into the bucket of its hash after every rule with an index
     * up to its own.
     */
    method Insert(r: PrefixRule)
      requires Valid() && capacity > 0 && WfRule(r) && Responsible(r.tuplemap, tuplemap)
      modifies this, storage
      ensures Valid()
      ensures minIndex == if r.index < old(minIndex) then r.index else old(minIndex)
      ensures forall b :: 0 <= b < capacity ==>
        storage[b] == if b == Hash(r) % capacity then InsertSorted(old(storage[b]), r) else old(storage[b])
      ensures Contents() == old(Contents()) + {r}
    {
      ValidIsBucketsOk();
      ghost var before, lo := storage[..], minIndex;
      if r.index < minIndex {
        minIndex := r.index;
      }
      var index := Hash(r) % capacity;
      var nb := InsertIntoBucket(storage[index], r);
      storage[index] := nb;
      InsertKeepsBuckets(before, r, index, lo, minIndex);
      assert storage[..] == before[index := nb];
      ValidIsBucketsOk();
      InsertedContents(before, index, r);
    }

    /** `incrementIndex`: every stored index from `oldIndex` on moves up by one; `minIndex` stays. */
    method IncrementIndex(oldIndex: nat)
      requires Valid()
      modifies storage
      ensures Valid()
      ensures forall b :: 0 <= b < capacity ==> storage[b] == RaiseAll(old(storage[b]), oldIndex)
      ensures Contents() == set x | x in old(Contents()) :: Raise(x, oldIndex)
    {
      ValidIsPlacement();
      ghost var before := storage[..];
      var i := 0;
      while i < capacity
        invariant 0 <= i <= capacity
        invariant forall b :: 0 <= b < i ==> storage[b] == RaiseAll(old(storage[b]), oldIndex)
        invariant forall b :: i <= b < capacity ==> storage[b] == old(storage[b])
      {
        var raised := RaiseBucket(storage[i], oldIndex);
        storage[i] := raised;
        i := i + 1;
      }
      forall b | 0 <= b < capacity
        ensures Sorted(storage[b])
      {
        ShiftsKeepSorted(old(storage[b]), oldIndex);
      }
      RaisedContents(before, oldIndex, storage[..]);
      ValidIsPlacement();
    }

    /**
     * `decrementIndex` as written: every stored index above `oldIndex`
     * moves down by one, but `minIndex` is left as it was, so it may now
     * exceed the least stored index.
     */
    method DecrementIndexAsWritten(oldIndex: nat)
      requires Placement()
      modifies storage
      ensures Placement()
      ensures forall b :: 0 <= b < capacity ==> storage[b] == LowerAll(old(storage[b]), oldIndex)
      ensures Contents() == set x | x in old(Contents()) :: Lower(x, oldIndex)
    {
      ghost var before := storage[..];
      var i := 0;
      while i < capacity
        invariant 0 <= i <= capacity
        invariant forall b :: 0 <= b < i ==> storage[b] == LowerAll(old(storage[b]), oldIndex)
        invariant forall b :: i <= b < capacity ==> storage[b] == old(storage[b])
      {
        var lowered := LowerBucket(storage[i], oldIndex);
        storage[i] := lowered;
        i := i + 1;
      }
      forall b | 0 <= b < capacity
        ensures Sorted(storage[b])
      {
        ShiftsKeepSorted(old(storage[b]), oldIndex);
      }
      LoweredContents(before, oldIndex, storage[..]);
    }

    /** `decrementIndex` corrected: `minIndex` moves down with the indices above `oldIndex`. */
    method DecrementIndex(oldIndex: nat)
      requires Valid()
      modifies this, storage
      ensures Valid()
      ensures minIndex == if old(minIndex) > oldIndex then old(minIndex) - 1 else old(minIndex)
      ensures forall b :: 0 <= b < capacity ==> storage[b] == LowerAll(old(storage[b]), oldIndex)
      ensures Contents() == set x | x in old(Contents()) :: Lower(x, oldIndex)
    {
      ValidIsPlacement();
      DecrementIndexAsWritten(oldIndex);
      if minIndex > oldIndex {
        minIndex := minIndex - 1;
      }
      forall b, j | 0 <= b < capacity && 0 <= j < |storage[b]|
        ensures minIndex <= storage[b][j].index
      {
        assert old(minIndex) <= old(storage[b][j]).index;
      }
      ValidIsPlacement();
    }

    /**
     * `remove`: `minIndex` moves past the index if it equals it, and every
     * stored rule with the index is unlinked, the others keeping their order.
     */
    method Remove(idx: nat)
      requires Valid()
      modifies this, storage
      ensures Valid()
      ensures minIndex == if idx == old(minIndex) then old(minIndex) + 1 else old(minIndex)
      ensures forall b :: 0 <= b < capacity ==> storage[b] == Removed(old(storage[b]), idx)
      ensures Contents() == set x | x in old(Contents()) && x.index != idx
    {
      ValidIsBucketsOk();
      ghost var before, lo := storage[..], minIndex;
      if idx == minIndex {
        minIndex := minIndex + 1;
      }
      RemoveFromAll(idx);
      RemoveKeepsBuckets(before, idx, lo, storage[..]);
      ValidIsBucketsOk();
      RemovedContents(before, idx, storage[..]);
    }

    /** The loop of `remove` over all buckets. */
    method RemoveFromAll(idx: nat)
      requires Shape()
      modifies storage
      ensures forall b :: 0 <= b < capacity ==> storage[b] == Removed(old(storage[b]), idx)
    {
      var i := 0;
      while i < capacity
        invariant 0 <= i <= capacity
        invariant forall b :: 0 <= b < i ==> storage[b] == Removed(old(storage[b]), idx)
        invariant forall b :: i <= b < capacity ==> storage[b] == old(storage[b])
      {
        var kept := RemoveFromBucket(storage[i], idx);
        storage[i] := kept;
        i := i + 1;
      }
    }
  }
}
