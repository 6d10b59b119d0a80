/**
 * The word-packed bitvector of the bitvector classifier: a size in bits
 * and an array of 32-bit storage words.
 */
module Bitvectors {
  import opened BitOps
  import opened Results

  // The messages of the exceptions thrown here.
  const PositionError: string := "Bitvector: Invalid position for getting storage value was given!"

  /** `noBitSetInBitvector()`: the largest 64-bit `unsigned long`. */
  const NoBitSet: nat := 0xFFFF_FFFF_FFFF_FFFF

  /** `_calcStorageSize`: the number of 32-bit words needed for `bits` bits. */
  function StorageSize(bits: nat): (n: nat)
    ensures n * 32 >= bits && (n > 0 ==> (n - 1) * 32 < bits)
  {
    bits / 32 + (if bits % 32 == 0 then 0 else 1)
  }

  /** Every storage word is a 32-bit unsigned value. */
  predicate WordsFit(words: seq<nat>)
  {
    forall i :: 0 <= i < |words| ==> words[i] < Limit32
  }

  /** The value a bitvector holds: its size in bits and its storage words. */
  datatype BitvectorValue = BitvectorValue(size: nat, words: seq<nat>)

  predicate ValidValue(v: BitvectorValue)
  {
    v.size < Limit32 && |v.words| == StorageSize(v.size) && WordsFit(v.words)
  }

  /** A new vector of `size` bits: all storage words zero. */
  function Zeroes(size: nat): BitvectorValue
  {
    BitvectorValue(size, seq(StorageSize(size), _ => 0))
  }

  /** Bit p of the storage: bit p % 32 of word p / 32; no bit is set outside the storage. */
  predicate BitOf(words: seq<nat>, p: nat)
  {
    p / 32 < |words| && Bit(words[p / 32], p % 32)
  }

  /**
   * `_getStorageReference` accepts a position whose word exists and whose
   * offset inside that word is below the size in bits. The offset, not the
   * position, is compared with the size, so a vector of 32 bits or more
   * accepts every position of its last word, even past the size.
   */
  predicate ValidPosition(v: BitvectorValue, p: nat)
  {
    p / 32 < |v.words| && p % 32 < v.size
  }

  /** The vector after `setBit(p)`. */
  function SetBitValue(v: BitvectorValue, p: nat): BitvectorValue
    requires ValidPosition(v, p)
  {
    BitvectorValue(v.size, v.words[p / 32 := Or(v.words[p / 32], Pow2(p % 32))])
  }

  /** The words after `a &= b`: the common words and-ed, the extra words of a zeroed. */
  function AndWords(a: seq<nat>, b: seq<nat>): seq<nat>
  {
    seq(|a|, i requires 0 <= i < |a| => if i < |b| then And(a[i], b[i]) else 0)
  }

  /** The words after `a |= b`: the common words or-ed, the extra words of a kept. */
  function OrWords(a: seq<nat>, b: seq<nat>): seq<nat>
  {
    seq(|a|, i requires 0 <= i < |a| => if i < |b| then Or(a[i], b[i]) else a[i])
  }

  /** Binary `&`: a copy of the larger operand (the left one on a tie) and-ed with the other. */
  function AndValue(lhs: BitvectorValue, rhs: BitvectorValue): BitvectorValue
  {
    if lhs.size >= rhs.size then BitvectorValue(lhs.size, AndWords(lhs.words, rhs.words))
    else BitvectorValue(rhs.size, AndWords(rhs.words, lhs.words))
  }

  /** Binary `|`: a copy of the larger operand (the left one on a tie) or-ed with the other. */
  function OrValue(lhs: BitvectorValue, rhs: BitvectorValue): BitvectorValue
  {
    if lhs.size >= rhs.size then BitvectorValue(lhs.size, OrWords(lhs.words, rhs.words))
    else BitvectorValue(rhs.size, OrWords(rhs.words, lhs.words))
  }

  /** The first bit index from `from` on whose single-bit mask meets w, or 32. */
  function LowestBitFrom(w: nat, from: nat): (b: nat)
    requires from <= 32
    ensures from <= b <= 32
    decreases 32 - from
  {
    if from == 32 then 32
    else if And(w, Pow2(from)) > 0 then from
    else LowestBitFrom(w, from + 1)
  }

  /** The scan of `getFirstSetBit` from word i on. */
  function FirstSetFrom(words: seq<nat>, i: nat): nat
    requires i <= |words|
    decreases |words| - i
  {
    if i == |words| then NoBitSet
    else if words[i] > 0 && LowestBitFrom(words[i], 0) < 32 then LowestBitFrom(words[i], 0) + i * 32
    else FirstSetFrom(words, i + 1)
  }

  /** The result of `getFirstSetBit`: the lowest set position, or `NoBitSet` if no bit is set. */
  function FirstSetBit(words: seq<nat>): (r: nat)
    requires WordsFit(words) && |words| < Limit32
    ensures r == NoBitSet <==> forall q: nat :: !BitOf(words, q)
    ensures r != NoBitSet ==> BitOf(words, r) && forall q: nat :: q < r ==> !BitOf(words, q)
  {
    FirstSetFromCorrect(words, 0);
    FirstSetFrom(words, 0)
  }

  lemma LowestBitFromLeast(w: nat, from: nat, c: nat)
    requires from <= 32 && from <= c < LowestBitFrom(w, from)
    ensures !Bit(w, c)
    decreases 32 - from
  {
    AndPow2(w, from);
    if from < c {
      LowestBitFromLeast(w, from + 1, c);
    }
  }

  lemma {:induction false} LowestBitFromSpec(w: nat, from: nat)
    requires from <= 32
    ensures var b := LowestBitFrom(w, from);
      (b < 32 ==> Bit(w, b)) && (b == 32 ==> forall c: nat :: from <= c < 32 ==> !Bit(w, c))
    decreases 32 - from
  {
    if from < 32 {
      AndPow2(w, from);
      LowestBitFromSpec(w, from + 1);
    }
  }

  lemma LowestBitFound(w: nat)
    requires 0 < w < Limit32
    ensures LowestBitFrom(w, 0) < 32 && Bit(w, LowestBitFrom(w, 0))
  {
    LowestBitFromSpec(w, 0);
    Pow2Word();
    if LowestBitFrom(w, 0) == 32 {
      NoBitsIsZero(w, 32);
    }
  }

  lemma {:induction false} FirstSetFromCorrect(words: seq<nat>, i: nat)
    requires WordsFit(words) && |words| < Limit32 && i <= |words|
    requires forall q: nat :: q / 32 < i ==> !BitOf(words, q)
    ensures var r := FirstSetFrom(words, i);
      (r == NoBitSet <==> forall q: nat :: !BitOf(words, q)) &&
      (r != NoBitSet ==> BitOf(words, r) && forall q: nat :: q < r ==> !BitOf(words, q))
    decreases |words| - i
  {
    if i == |words| {
    } else if words[i] > 0 {
      FirstSetHere(words, i);
    } else {
      ZeroWordSkipped(words, i);
      FirstSetFromCorrect(words, i + 1);
    }
  }

  /** A nonzero word i after zero words: its lowest set bit is the first one. */
  lemma FirstSetHere(words: seq<nat>, i: nat)
    requires WordsFit(words) && |words| < Limit32 && i < |words| && words[i] > 0
    requires forall q: nat :: q / 32 < i ==> !BitOf(words, q)
    ensures var r := FirstSetFrom(words, i);
      r != NoBitSet && BitOf(words, r) && forall q: nat :: q < r ==> !BitOf(words, q)
  {
    Pow2Word();
    var w := words[i];
    LowestBitFound(w);
    var b := LowestBitFrom(w, 0);
    var r := b + i * 32;
    assert FirstSetFrom(words, i) == r;
    DivModUnique(r, 32, i, b);
    assert BitOf(words, r);
    assert r < NoBitSet;
    forall q: nat | q < r
      ensures !BitOf(words, q)
    {
      if q / 32 == i {
        LowestBitFromLeast(w, 0, q % 32);
      }
    }
  }

  /** A zero word holds no set bit. */
  lemma ZeroWordSkipped(words: seq<nat>, i: nat)
    requires i < |words| && words[i] == 0
    requires forall q: nat :: q / 32 < i ==> !BitOf(words, q)
    ensures forall q: nat :: q / 32 < i + 1 ==> !BitOf(words, q)
  {
    forall q: nat | q / 32 < i + 1
      ensures !BitOf(words, q)
    {
      if q / 32 == i {
        BitZero(q % 32);
      }
    }
  }

  // ---------------------------------------------------------------------
  // What the operations do to single bits
  // ---------------------------------------------------------------------

  /** `setBit(p)` makes bit p set and leaves every other bit as it was. */
  lemma SetBitEffect(v: BitvectorValue, p: nat, q: nat)
    requires ValidPosition(v, p)
    ensures BitOf(SetBitValue(v, p).words, q) == (q == p || BitOf(v.words, q))
  {
    var k := p / 32;
    if q / 32 == k {
      BitOr(v.words[k], Pow2(p % 32), q % 32);
      BitPow2(p % 32, q % 32);
      assert q == 32 * (q / 32) + q % 32 && p == 32 * k + p % 32;
    }
  }

  /** And-ing keeps exactly the bits set in both operands. */
  lemma AndWordsBits(a: seq<nat>, b: seq<nat>, q: nat)
    ensures BitOf(AndWords(a, b), q) == (BitOf(a, q) && BitOf(b, q))
  {
    if q / 32 < |a| {
      if q / 32 < |b| {
        BitAnd(a[q / 32], b[q / 32], q % 32);
      } else {
        BitZero(q % 32);
      }
    }
  }

  /** Or-ing adds the bits of the other operand that fall inside the receiver's words. */
  lemma OrWordsBits(a: seq<nat>, b: seq<nat>, q: nat)
    ensures BitOf(OrWords(a, b), q) == (BitOf(a, q) || (q / 32 < |a| && BitOf(b, q)))
  {
    if q / 32 < |a| && q / 32 < |b| {
      BitOr(a[q / 32], b[q / 32], q % 32);
    }
  }

  /** And-ing or or-ing a vector with itself changes nothing. */
  lemma SelfOperations(w: seq<nat>)
    ensures AndWords(w, w) == w && OrWords(w, w) == w
  {
    forall i | 0 <= i < |w|
      ensures And(w[i], w[i]) == w[i] && Or(w[i], w[i]) == w[i]
    {
      AndIdem(w[i]);
      OrIdem(w[i]);
    }
  }

  /** The binary operators give the larger size; `&` is the intersection of the bit sets. */
  lemma BinaryOperators(x: BitvectorValue, y: BitvectorValue, q: nat)
    ensures AndValue(x, y).size == OrValue(x, y).size == if x.size >= y.size then x.size else y.size
    ensures BitOf(AndValue(x, y).words, q) == (BitOf(x.words, q) && BitOf(y.words, q))
  {
    AndWordsBits(x.words, y.words, q);
    AndWordsBits(y.words, x.words, q);
  }

  /** A new vector has no bit set, so its first set bit is `NoBitSet`. */
  lemma ZeroesHaveNoBits(size: nat, q: nat)
    ensures !BitOf(Zeroes(size).words, q)
  {
    if q / 32 < |Zeroes(size).words| {
      BitZero(q % 32);
    }
  }

  /**
   * The positions of the set-and-get test: a vector of 4 bits accepts 3 and
   * refuses 4 and 0x1FFFF, a vector of no bits refuses 0, and a vector of
   * 0xFFFF bits accepts position 0xFFFF past its size (its word exists and
   * the offset 31 is below the size).
   */
  lemma PositionCheckExamples()
    ensures ValidPosition(Zeroes(4), 3)
    ensures !ValidPosition(Zeroes(4), 4) && !ValidPosition(Zeroes(4), 0x1FFFF)
    ensures !ValidPosition(Zeroes(0), 0)
    ensures ValidPosition(Zeroes(0xFFFF), 0xFFFF)
  {
  }

  lemma AndWordsFit(a: seq<nat>, b: seq<nat>)
    requires WordsFit(a) && WordsFit(b)
    ensures WordsFit(AndWords(a, b))
  {
    forall i | 0 <= i < |a| && i < |b|
      ensures And(a[i], b[i]) < Limit32
    {
      Pow2Word();
      AndBound(a[i], b[i], 32);
    }
  }

  lemma OrWordsFit(a: seq<nat>, b: seq<nat>)
    requires WordsFit(a) && WordsFit(b)
    ensures WordsFit(OrWords(a, b))
  {
    forall i | 0 <= i < |a| && i < |b|
      ensures Or(a[i], b[i]) < Limit32
    {
      Pow2Word();
      OrBound(a[i], b[i], 32);
    }
  }

  /** Setting a bit and the binary operators keep the storage words of 32 bits and in step with the size. */
  lemma ValueOperationsKeepValid(v: BitvectorValue, w: BitvectorValue, p: nat)
    requires ValidValue(v) && ValidValue(w)
    ensures ValidPosition(v, p) ==> ValidValue(SetBitValue(v, p))
    ensures ValidValue(AndValue(v, w)) && ValidValue(OrValue(v, w))
  {
    if ValidPosition(v, p) {
      Pow2Word();
      Pow2Monotone(p % 32 + 1, 32);
      assert v.words[p / 32] < Limit32;
      OrBound(v.words[p / 32], Pow2(p % 32), 32);
    }
    AndWordsFit(v.words, w.words);
    AndWordsFit(w.words, v.words);
    OrWordsFit(v.words, w.words);
    OrWordsFit(w.words, v.words);
  }

  /** A bitvector object: its size in bits and its storage array. */
  class Bitvector {
    var size: nat
    var storage: array<nat>

    predicate Valid()
      reads this, storage
    {
      ValidValue(Value())
    }

    function Value(): BitvectorValue
      reads this, storage
    {
      BitvectorValue(size, storage[..])
    }

    /** `Bitvector(size)`: storage for `n` bits, every word zero. */
    constructor(n: nat)
      requires n < Limit32
      ensures Valid() && Value() == Zeroes(n) && fresh(storage)
    {
      size := n;
      var s := new nat[StorageSize(n)];
      var i := 0;
      while i < s.Length
        invariant 0 <= i <= s.Length
        invariant forall j :: 0 <= j < i ==> s[j] == 0
      {
        s[i] := 0;
        i := i + 1;
      }
      storage := s;
      new;
      assert storage[..] == Zeroes(n).words;
    }

    /** The copy constructor: the same size and the same words. */
    constructor Copy(other: Bitvector)
      requires other.Valid()
      ensures Valid() && Value() == other.Value() && fresh(storage)
    {
      size := other.size;
      var s := new nat[other.storage.Length];
      var i := 0;
      while i < s.Length
        invariant 0 <= i <= s.Length
        invariant forall j :: 0 <= j < i ==> s[j] == other.storage[j]
      {
        s[i] := other.storage[i];
        i := i + 1;
      }
      storage := s;
      new;
      assert storage[..] == other.storage[..];
    }

    /** `operator=`: takes over size and words, reallocating when the word counts differ. */
    method Assign(other: Bitvector)
      requires Valid() && other.Valid()
      requires other != this ==> other.storage != storage
      modifies this, storage
      ensures Valid() && Value() == old(other.Value())
      ensures storage == old(storage) || fresh(storage)
    {
      if other == this {
        return;
      }
      if storage.Length != other.storage.Length {
        storage := new nat[other.storage.Length];
      }
      size := other.size;
      var i := 0;
      while i < storage.Length
        invariant 0 <= i <= storage.Length == other.storage.Length
        invariant storage == old(storage) || fresh(storage)
        invariant storage != other.storage && size == other.size
        invariant other.storage[..] == old(other.storage[..]) && other.size == old(other.size)
        invariant forall j :: 0 <= j < i ==> storage[j] == other.storage[j]
      {
        storage[i] := other.storage[i];
        i := i + 1;
      }
      assert storage[..] == other.storage[..];
    }

    /** `operator&=`: and-s the common words and zeroes the extra words of this vector. */
    method AndAssign(rhs: Bitvector)
      requires Valid() && rhs.Valid()
      requires rhs != this ==> rhs.storage != storage
      modifies storage
      ensures Valid() && Value() == BitvectorValue(old(size), AndWords(old(storage[..]), old(rhs.storage[..])))
    {
      if rhs == this {
        SelfOperations(storage[..]);
        return;
      }
      ghost var target := AndWords(storage[..], rhs.storage[..]);
      AndWordsFit(storage[..], rhs.storage[..]);
      var i := 0;
      while i < storage.Length && i < rhs.storage.Length
        invariant 0 <= i <= storage.Length
        invariant i <= rhs.storage.Length
        invariant forall j :: 0 <= j < i ==> storage[j] == target[j]
        invariant forall j :: i <= j < storage.Length ==> storage[j] == old(storage[j])
      {
        storage[i] := And(storage[i], rhs.storage[i]);
        i := i + 1;
      }
      if storage.Length > rhs.storage.Length {
        var k := rhs.storage.Length;
        while k < storage.Length
          invariant rhs.storage.Length <= k <= storage.Length
          invariant forall j :: 0 <= j < k ==> storage[j] == target[j]
        {
          storage[k] := 0;
          k := k + 1;
        }
      }
      assert storage[..] == target;
    }

    /** `operator|=`: or-s the common words and keeps the extra words of this vector. */
    method OrAssign(rhs: Bitvector)
      requires Valid() && rhs.Valid()
      requires rhs != this ==> rhs.storage != storage
      modifies storage
      ensures Valid() && Value() == BitvectorValue(old(size), OrWords(old(storage[..]), old(rhs.storage[..])))
    {
      if rhs == this {
        SelfOperations(storage[..]);
        return;
      }
      ghost var target := OrWords(storage[..], rhs.storage[..]);
      OrWordsFit(storage[..], rhs.storage[..]);
      var i := 0;
      while i < storage.Length && i < rhs.storage.Length
        invariant 0 <= i <= storage.Length
        invariant i <= rhs.storage.Length
        invariant forall j :: 0 <= j < i ==> storage[j] == target[j]
        invariant forall j :: i <= j < storage.Length ==> storage[j] == old(storage[j])
      {
        storage[i] := Or(storage[i], rhs.storage[i]);
        i := i + 1;
      }
      assert storage[..] == target;
    }

    /** `setBit`: sets one bit; a position the storage check refuses throws. */
    method SetBit(p: nat) returns (o: Outcome)
      requires Valid()
      modifies storage
      ensures ValidPosition(old(Value()), p) ==> o == Done && Value() == SetBitValue(old(Value()), p)
      ensures !ValidPosition(old(Value()), p) ==> o.Fail? && Value() == old(Value())
      ensures Valid()
    {
      var storagePos := p / 32;
      var bitPos := p % 32;
      if storagePos >= storage.Length || bitPos >= size {
        return Fail(PositionError);
      }
      ValueOperationsKeepValid(Value(), Value(), p);
      storage[storagePos] := Or(storage[storagePos], Pow2(bitPos));
      return Done;
    }

    /** `getBit`: reads one bit; a position the storage check refuses throws. */
    method GetBit(p: nat) returns (r: Result<bool>)
      requires Valid()
      ensures ValidPosition(Value(), p) ==> r == Ok(BitOf(Value().words, p))
      ensures !ValidPosition(Value(), p) ==> r.Err?
    {
      var storagePos := p / 32;
      var bitPos := p % 32;
      if storagePos >= storage.Length || bitPos >= size {
        return Err(PositionError);
      }
      AndPow2(storage[storagePos], bitPos);
      return Ok(And(storage[storagePos], Pow2(bitPos)) > 0);
    }

    /** `getFirstSetBit`: the lowest set position, or `NoBitSet`. */
    method GetFirstSetBit() returns (r: nat)
      requires Valid()
      ensures r == FirstSetBit(Value().words)
      ensures r == NoBitSet <==> forall q: nat :: !BitOf(Value().words, q)
      ensures r != NoBitSet ==> BitOf(Value().words, r) && forall q: nat :: q < r ==> !BitOf(Value().words, q)
    {
      WordCountBound(size);
      var i := 0;
      while i < storage.Length
        invariant 0 <= i <= storage.Length
        invariant FirstSetFrom(storage[..], i) == FirstSetFrom(storage[..], 0)
      {
        var value := storage[i];
        if value > 0 {
          var bit := 0;
          while bit < 32
            invariant 0 <= bit <= 32
            invariant LowestBitFrom(value, bit) == LowestBitFrom(value, 0)
          {
            if And(value, Pow2(bit)) > 0 {
              return bit + i * 32;
            }
            bit := bit + 1;
          }
        }
        i := i + 1;
      }
      return NoBitSet;
    }
  }

  lemma WordCountBound(size: nat)
    requires size < Limit32
    ensures StorageSize(size) < Limit32
  {
  }

  /** Binary `&` on objects: a new vector holding `AndValue` of the operands. */
  method AndOf(lhs: Bitvector, rhs: Bitvector) returns (result: Bitvector)
    requires lhs.Valid() && rhs.Valid()
    requires lhs != rhs ==> lhs.storage != rhs.storage
    ensures fresh(result) && fresh(result.storage)
    ensures result.Valid() && result.Value() == AndValue(lhs.Value(), rhs.Value())
  {
    if lhs.size >= rhs.size {
      result := new Bitvector.Copy(lhs);
      result.AndAssign(rhs);
    } else {
      result := new Bitvector.Copy(rhs);
      result.AndAssign(lhs);
    }
  }

  /** Binary `|` on objects: a new vector holding `OrValue` of the operands. */
  method OrOf(lhs: Bitvector, rhs: Bitvector) returns (result: Bitvector)
    requires lhs.Valid() && rhs.Valid()
    requires lhs != rhs ==> lhs.storage != rhs.storage
    ensures fresh(result) && fresh(result.storage)
    ensures result.Valid() && result.Value() == OrValue(lhs.Value(), rhs.Value())
  {
    if lhs.size >= rhs.size {
      result := new Bitvector.Copy(lhs);
      result.OrAssign(rhs);
    } else {
      result := new Bitvector.Copy(rhs);
      result.OrAssign(lhs);
    }
  }
}
