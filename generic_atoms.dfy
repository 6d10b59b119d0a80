/**
 * The generic, arbitrary-precision rule atoms a configuration is made of,
 * their conversions to a range and to a list of prefixes, and the arity
 * check of a generic rule set.
 */
module GenericAtoms {
  import opened BitOps
  import opened Sequences
  import opened VarValues

  /** A generic rule atom; `width` is the bit width of its header field. */
  datatype RuleAtom =
    | Exact(value: nat, width: nat)
    | Range(minValue: nat, maxValue: nat, width: nat)
    | Prefix(prefix: nat, mask: nat, width: nat)

  /** A prefix block: its first value and its prefix length. */
  type PrefixPair = (nat, nat)

  /** A generic rule is a list of atoms, a generic rule set a list of rules. */
  type Rule = seq<RuleAtom>
  type RuleSet = seq<Rule>

  /** Only a prefix atom with an empty mask is a wildcard. */
  predicate IsWildcard(a: RuleAtom)
  {
    a.Prefix? && a.mask == 0
  }

  /** `toRange`: the closed interval an atom stands for (a wildcard prefix gives [0, 0]). */
  function ToRange(a: RuleAtom): (r: (nat, nat))
    ensures a.Exact? ==> r == (a.value, a.value)
    ensures a.Range? ==> r == (a.minValue, a.maxValue)
    ensures IsWildcard(a) ==> r == (0, 0)
  {
    match a
    case Exact(v, _) => (v, v)
    case Range(lo, hi, _) => (lo, hi)
    case Prefix(p, m, _) =>
      var lo := And(p, m);
      (lo, Or(lo, Negated(m)))
  }

  /** The complement of a contiguous top-`len` mask is the all-ones value below it. */
  lemma NegatedPrefixMask(len: nat, w: nat)
    requires 1 <= len <= w
    ensures Negated(PrefixMask(len, w)) == Pow2(w - len) - 1
  {
    Pow2Monotone(w - len, w - 1);
    BitLengthExact(PrefixMask(len, w), w);
  }

  /**
   * For a contiguous mask of the top `len` bits of a `w`-bit word, the range
   * of a prefix atom is the aligned block of 2^(w - len) values holding the
   * prefix.
   */
  lemma PrefixRangeIsBlock(p: nat, len: nat, w: nat, width: nat)
    requires 1 <= len <= w && p < Pow2(w)
    ensures ToRange(Prefix(p, PrefixMask(len, w), width)) ==
      (p - p % Pow2(w - len), p - p % Pow2(w - len) + Pow2(w - len) - 1)
  {
    var b := Pow2(w - len);
    NegatedPrefixMask(len, w);
    AndHighMask(p, w, w - len);
    AlignedBase(p, b);
    OrDisjointLow(p - p % b, b - 1, w - len);
  }

  /**
   * A `w`-bit value lies in the range of such a prefix atom iff its masked
   * bits equal the prefix's, i.e. iff the Data5tpl prefix match holds.
   */
  lemma PrefixRangeMembership(p: nat, len: nat, w: nat, width: nat, v: nat)
    requires 1 <= len <= w && p < Pow2(w) && v < Pow2(w)
    ensures var r := ToRange(Prefix(p, PrefixMask(len, w), width));
      r.0 <= v <= r.1 <==> And(v, PrefixMask(len, w)) == And(p, PrefixMask(len, w))
  {
    PrefixRangeIsBlock(p, len, w, width);
    AndHighMask(p, w, w - len);
    AndHighMask(v, w, w - len);
    InAlignedBlock(v, p, Pow2(w - len));
  }

  /** The prefix test of `toRange`: prefix 0x17880 under mask 0xFFF00 gives [0x17800, 0x178FF]. */
  lemma PrefixRangeExample()
    ensures ToRange(Prefix(0x17880, 0xFFF00, 32)) == (0x17800, 0x178FF)
  {
    Pow2Add(8, 12);
    assert Pow2(8) == 0x100;
    assert Pow2(12) == 0x1000;
    assert PrefixMask(12, 20) == 0xFFF00;
    PrefixRangeIsBlock(0x17880, 12, 20, 32);
  }

  // ---------------------------------------------------------------------
  // Range to prefix decomposition
  // ---------------------------------------------------------------------

  /** Size of the block of a prefix pair with prefix length `len` in a `width`-bit field. */
  function BlockSize(len: nat, width: nat): nat
  {
    if len <= width then Pow2(width - len) else 1
  }

  /**
   * The exponent of the block the inner loop of `toPrefixes` emits at `lo`:
   * the first i from `from` on at which a block of 2^(i+1) values is either
   * misaligned or runs past `hi`.
   */
  function BlockExp(lo: nat, hi: nat, width: nat, from: nat): (i: nat)
    requires lo <= hi < Pow2(width) && from <= width
    ensures from <= i <= width
    decreases width - from
  {
    if lo % Pow2(from + 1) != 0 || lo + Pow2(from + 1) - 1 > hi then from
    else BlockExp(lo, hi, width, from + 1)
  }

  /** The prefix blocks `toPrefixes` emits for the range [lo, hi]. */
  function Blocks(lo: nat, hi: nat, width: nat): seq<PrefixPair>
    requires hi < Pow2(width)
    decreases hi + 1 - lo
  {
    if lo > hi then []
    else
      var i := BlockExp(lo, hi, width, 0);
      [(lo, width - i)] + Blocks(lo + Pow2(i), hi, width)
  }

  /**
   * Blocks tile [lo, hi]: they start at lo, follow each other without gap,
   * each is aligned to its own size, fits below hi, and is the largest such
   * block (its double is misaligned or passes hi); an empty range has none.
   */
  predicate Tiles(bs: seq<PrefixPair>, lo: nat, hi: nat, width: nat)
    decreases |bs|
  {
    if |bs| == 0 then lo > hi
    else
      var s := BlockSize(bs[0].1, width);
      bs[0].0 == lo && bs[0].1 <= width && lo % s == 0 && lo + s - 1 <= hi &&
      (lo % (2 * s) != 0 || lo + 2 * s - 1 > hi) &&
      Tiles(bs[1..], lo + s, hi, width)
  }

  /** The exponent found by the inner loop gives an aligned, fitting, maximal block. */
  lemma {:induction false} BlockExpProperties(lo: nat, hi: nat, width: nat, from: nat)
    requires lo <= hi < Pow2(width) && from <= width
    requires lo % Pow2(from) == 0 && lo + Pow2(from) - 1 <= hi
    ensures var i := BlockExp(lo, hi, width, from);
      lo % Pow2(i) == 0 && lo + Pow2(i) - 1 <= hi &&
      (lo % Pow2(i + 1) != 0 || lo + Pow2(i + 1) - 1 > hi)
    decreases width - from
  {
    if !(lo % Pow2(from + 1) != 0 || lo + Pow2(from + 1) - 1 > hi) {
      BlockExpProperties(lo, hi, width, from + 1);
    }
  }

  lemma {:induction false} BlocksTile(lo: nat, hi: nat, width: nat)
    requires hi < Pow2(width)
    ensures Tiles(Blocks(lo, hi, width), lo, hi, width)
    decreases hi + 1 - lo
  {
    if lo <= hi {
      var i := BlockExp(lo, hi, width, 0);
      BlockExpProperties(lo, hi, width, 0);
      var bs := Blocks(lo, hi, width);
      assert BlockSize(bs[0].1, width) == Pow2(i);
      assert bs[1..] == Blocks(lo + Pow2(i), hi, width);
      BlocksTile(lo + Pow2(i), hi, width);
    }
  }

  /** Some block of the list holds v. */
  predicate Covered(bs: seq<PrefixPair>, width: nat, v: nat)
  {
    exists k :: 0 <= k < |bs| && bs[k].0 <= v < bs[k].0 + BlockSize(bs[k].1, width)
  }

  /** A value is covered by a tiling of [lo, hi] iff it lies in [lo, hi]. */
  lemma {:induction false} TilesCover(bs: seq<PrefixPair>, lo: nat, hi: nat, width: nat, v: nat)
    requires Tiles(bs, lo, hi, width)
    ensures lo <= v <= hi <==> Covered(bs, width, v)
    decreases |bs|
  {
    if |bs| > 0 {
      var s := BlockSize(bs[0].1, width);
      TilesCover(bs[1..], lo + s, hi, width, v);
      if lo <= v <= hi && !(v < lo + s) {
        var k :| 0 <= k < |bs[1..]| && bs[1..][k].0 <= v < bs[1..][k].0 + BlockSize(bs[1..][k].1, width);
        assert bs[k + 1] == bs[1..][k];
      }
      if Covered(bs, width, v) {
        var k :| 0 <= k < |bs| && bs[k].0 <= v < bs[k].0 + BlockSize(bs[k].1, width);
        if k > 0 {
          assert bs[1..][k - 1] == bs[k];
          TilesStartAtLeast(bs[1..], lo + s, hi, width, k - 1);
        }
      }
    }
  }

  /** Every block of a tiling of [lo, hi] lies inside [lo, hi]. */
  lemma {:induction false} TilesStartAtLeast(bs: seq<PrefixPair>, lo: nat, hi: nat, width: nat, k: nat)
    requires Tiles(bs, lo, hi, width) && k < |bs|
    ensures lo <= bs[k].0 && bs[k].0 + BlockSize(bs[k].1, width) - 1 <= hi
    decreases |bs|
  {
    if k > 0 {
      var s := BlockSize(bs[0].1, width);
      TilesStartAtLeast(bs[1..], lo + s, hi, width, k - 1);
      assert bs[1..][k - 1] == bs[k];
    }
  }

  /**
   * `RuleAtomRange::toPrefixes` on [minValue, maxValue]: repeatedly emits the
   * largest aligned block starting at the running minimum that still fits.
   * The loop only ends for ranges inside the field (for values past 2^width
   * it can run forever), hence the precondition.
   */
  method RangeToPrefixes(minValue: nat, maxValue: nat, width: nat) returns (result: seq<PrefixPair>)
    requires maxValue < Pow2(width)
    ensures result == Blocks(minValue, maxValue, width)
  {
    var rmin := minValue;
    var rmax := maxValue;
    result := [];
    while rmin <= rmax
      invariant result + Blocks(rmin, rmax, width) == Blocks(minValue, maxValue, width)
      decreases rmax + 1 - rmin
    {
      var i := FindBlockExp(rmin, rmax, width);
      var block: PrefixPair := (rmin, width - i);
      AppendAssoc(result, [block], Blocks(rmin + Pow2(i), rmax, width));
      result := result + [block];
      rmin := rmin + Pow2(i);
    }
  }

  /**
   * The inner loop of `rangeToPrefixes`: the block of 2^i values from lo
   * is doubled while the double is aligned and stays within hi.
   */
  method FindBlockExp(lo: nat, hi: nat, width: nat) returns (i: nat)
    requires lo <= hi < Pow2(width)
    ensures i == BlockExp(lo, hi, width, 0)
  {
    i := 0;
    while true
      invariant i <= width
      invariant BlockExp(lo, hi, width, i) == BlockExp(lo, hi, width, 0)
      decreases width - i
    {
      var pot := Pow2(i + 1);
      if lo % pot != 0 || lo + pot - 1 > hi {
        return;
      }
      BlockGrows(lo, hi, width, i);
      i := i + 1;
    }
  }

  /** Where the search for the block size goes on, it stays below the width. */
  lemma BlockGrows(lo: nat, hi: nat, width: nat, i: nat)
    requires lo <= hi < Pow2(width) && i <= width && BlockExp(lo, hi, width, i) == BlockExp(lo, hi, width, 0)
    requires !(lo % Pow2(i + 1) != 0 || lo + Pow2(i + 1) - 1 > hi)
    ensures i + 1 <= width && BlockExp(lo, hi, width, i + 1) == BlockExp(lo, hi, width, 0)
  {
  }

  /** `maskLength`: counts the set bits among the low `width` bits of the mask. */
  method MaskLength(mask: nat, width: nat) returns (numbits: nat)
    ensures numbits == PopCount(mask, width)
  {
    numbits := 0;
    var i := 0;
    while i < width
      invariant i <= width && numbits == PopCount(mask, i)
    {
      AndOne(Shr(mask, i));
      PopCountStep(mask, i);
      if And(Shr(mask, i), 1) == 1 {
        numbits := numbits + 1;
      }
      i := i + 1;
    }
  }

  lemma AndOne(v: nat)
    ensures And(v, 1) == v % 2
  {
  }

  /** The prefix list of every atom kind: one pair for exact and prefix atoms. */
  function PrefixesOf(a: RuleAtom): seq<PrefixPair>
    requires a.Range? ==> a.maxValue < Pow2(a.width)
  {
    match a
    case Exact(v, w) => [(v, w)]
    case Range(lo, hi, w) => Blocks(lo, hi, w)
    case Prefix(p, m, w) => [(p, PopCount(m, w))]
  }

  /** `toPrefixes`: appends the prefix list of the atom to `result`. */
  method ToPrefixes(a: RuleAtom, result: seq<PrefixPair>) returns (r: seq<PrefixPair>)
    requires a.Range? ==> a.maxValue < Pow2(a.width)
    ensures r == result + PrefixesOf(a)
  {
    match a {
      case Exact(v, w) =>
        r := result + [(v, w)];
      case Range(lo, hi, w) =>
        var bs := RangeToPrefixes(lo, hi, w);
        r := result + bs;
      case Prefix(p, m, w) =>
        var len := MaskLength(m, w);
        r := result + [(p, len)];
    }
  }

  /**
   * The prefix list of any atom over a `width`-bit field covers exactly the
   * values the atom's range holds: a prefix atom with a contiguous mask of
   * `len` bits is reported back with length `len`, and a range atom's
   * blocks tile its range.
   */
  lemma PrefixAtomRoundTrip(p: nat, len: nat, width: nat)
    requires len <= width
    ensures PrefixesOf(Prefix(p, PrefixMask(len, width), width)) == [(p, len)]
  {
    PopCountHighMask(width, width - len);
  }

  lemma RangeAtomPrefixesTile(lo: nat, hi: nat, width: nat)
    requires hi < Pow2(width)
    ensures Tiles(PrefixesOf(Range(lo, hi, width)), lo, hi, width)
    ensures forall v: nat :: lo <= v <= hi <==> Covered(PrefixesOf(Range(lo, hi, width)), width, v)
  {
    var bs := Blocks(lo, hi, width);
    BlocksTile(lo, hi, width);
    forall v: nat
      ensures lo <= v <= hi <==> Covered(bs, width, v)
    {
      TilesCover(bs, lo, hi, width, v);
    }
  }

  // ---------------------------------------------------------------------
  // Rule set arity
  // ---------------------------------------------------------------------

  /**
   * Every rule after the first rule with atoms has the arity of that rule;
   * rules without atoms before it do not fix the arity.
   */
  predicate ConsistentArity(rs: RuleSet)
  {
    forall i, j :: 0 <= i < j < |rs| && |rs[i]| != 0 ==> |rs[j]| == |rs[i]|
  }

  /** `ruleSetIsValid`: checks that the atom count of the rules is consistent. */
  method RuleSetIsValid(rs: RuleSet) returns (valid: bool)
    ensures valid <==> ConsistentArity(rs)
  {
    var numAtoms := 0;
    var k := 0;
    while k < |rs|
      invariant 0 <= k <= |rs|
      invariant ConsistentArity(rs[..k])
      invariant numAtoms == 0 <==> forall i :: 0 <= i < k ==> |rs[i]| == 0
      invariant numAtoms != 0 ==> exists i :: 0 <= i < k && |rs[i]| == numAtoms
      invariant forall i :: 0 <= i < k && |rs[i]| != 0 ==> |rs[i]| == numAtoms
    {
      var ruleArity := |rs[k]|;
      if numAtoms == 0 {
        numAtoms := ruleArity;
      } else if ruleArity != numAtoms {
        var i :| 0 <= i < k && |rs[i]| == numAtoms;
        assert !ConsistentArity(rs) by {
          assert |rs[i]| != 0 && |rs[k]| != |rs[i]|;
        }
        return false;
      }
      k := k + 1;
      assert forall i, j :: 0 <= i < j < k ==> rs[..k][i] == rs[i] && rs[..k][j] == rs[j];
    }
    assert rs[..k] == rs;
    return true;
  }
}
