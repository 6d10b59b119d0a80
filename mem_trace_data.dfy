/**
 * The `size_t` arithmetic of the memory counters and the access counters
 * of one traced object (`MemTraceData`). The counters wrap around at 2^64,
 * and the tests rely on that to subtract by adding a "negative" size.
 */
module MemTrace {
  /** 2^64: the modulus of `size_t` arithmetic. */
  const Word: nat := 0x1_0000_0000_0000_0000

  /** `size_t` addition. */
  function Add(a: nat, b: nat): (r: nat)
    ensures r < Word
    ensures a + b < Word ==> r == a + b
    ensures a < Word && b < Word && a + b >= Word ==> r == a + b - Word
  {
    (a + b) % Word
  }

  /** `size_t` multiplication. */
  function Mul(a: nat, b: nat): (r: nat)
    ensures r < Word
    ensures a * b < Word ==> r == a * b
  {
    (a * b) % Word
  }

  /** Adding the two's complement of k takes k away again. */
  lemma AddNegative(a: nat, k: nat)
    requires a < Word && 0 < k <= a
    ensures Add(a, Word - k) == a - k
  {
  }

  /** Reducing the left operand first does not change a sum modulo 2^64. */
  lemma ModAddLeft(x: nat, y: nat)
    ensures (x % Word + y) % Word == (x + y) % Word
  {
    var q := x / Word;
    assert x == q * Word + x % Word;
    assert x + y == q * Word + (x % Word + y);
    ModMultiple(q, x % Word + y);
  }

  /** Adding a multiple of 2^64 does not change a value modulo 2^64. */
  lemma {:induction false} ModMultiple(q: nat, z: nat)
    ensures (q * Word + z) % Word == z % Word
    decreases q
  {
    if q > 0 {
      ModMultiple(q - 1, z);
      assert q * Word + z == (q - 1) * Word + z + Word;
    }
  }

  /** The allocation counter after n allocations of one object of the given size. */
  function Repeated(a: nat, size: nat, n: nat): (r: nat)
    ensures r < Word || (n == 0 && r == a)
  {
    if n == 0 then a else Add(Repeated(a, size, n - 1), size)
  }

  /** `alloc<T>(n)` counts the same as n calls of `alloc<T>()`. */
  lemma {:induction false} RepeatedIsMul(a: nat, size: nat, n: nat)
    requires a < Word
    ensures Repeated(a, size, n) == Add(a, Mul(n, size))
  {
    if n > 0 {
      RepeatedIsMul(a, size, n - 1);
      var p := (n - 1) * size;
      assert p + size == n * size;
      assert Mul(n - 1, size) == p % Word && Mul(n, size) == (p + size) % Word;
      AddStep(a, p, size);
    } else {
      assert Mul(0, size) == 0;
    }
  }

  /** Adding a reduced product and then a size is adding both and reducing once. */
  lemma AddStep(a: nat, p: nat, size: nat)
    ensures Add(Add(a, p % Word), size) == Add(a, (p + size) % Word)
  {
    ModAddLeft(p + size, a);
    ModAddLeft(a + p % Word, size);
    ModAddLeft(p, a + size);
    assert p % Word + (a + size) == a + p % Word + size;
    assert p + (a + size) == a + p + size;
  }

  /** The five counters of a traced object. */
  datatype TraceValues = TraceValues(allocBytes: nat, totalBytes: nat, count: nat, wBytes: nat, countWrite: nat)

  /** `MemTraceData`: allocated bytes, accessed bytes and accesses, and the write part of both. */
  class MemTraceData {
    var allocBytes: nat
    var totalBytes: nat
    var count: nat
    var wBytes: nat
    var countWrite: nat

    function Values(): TraceValues
      reads this
    {
      TraceValues(allocBytes, totalBytes, count, wBytes, countWrite)
    }

    /** Every counter is a `size_t` value. */
    ghost predicate Valid()
      reads this
    {
      allocBytes < Word && totalBytes < Word && count < Word && wBytes < Word && countWrite < Word
    }

    /** Writes are accesses: the write counters stay within the access counters. */
    ghost predicate Ordered()
      reads this
    {
      wBytes <= totalBytes && countWrite <= count
    }

    /** The constructor: every counter 0. */
    constructor()
      ensures Valid() && Ordered() && Values() == TraceValues(0, 0, 0, 0, 0)
    {
      allocBytes, totalBytes, count, wBytes, countWrite := 0, 0, 0, 0, 0;
    }

    /** `alloc<T>()`, for a type of the given size: the allocation grows by it. */
    method Alloc(size: nat)
      requires Valid() && size < Word
      modifies this
      ensures Valid() && Values() == old(Values()).(allocBytes := Add(old(allocBytes), size))
    {
      allocBytes := Add(allocBytes, size);
    }

    /** `alloc<T>(amount)`: the allocation grows by amount times the size. */
    method AllocN(amount: nat, size: nat)
      requires Valid() && amount < Word && size < Word
      modifies this
      ensures Valid() && Values() == old(Values()).(allocBytes := Add(old(allocBytes), Mul(amount, size)))
    {
      allocBytes := Add(allocBytes, Mul(amount, size));
    }

    /** `read<T>()`: one access of the given size. */
    method Read(size: nat)
      requires Valid() && size < Word
      modifies this
      ensures Valid()
      ensures Values() == old(Values()).(totalBytes := Add(old(totalBytes), size), count := Add(old(count), 1))
      ensures old(Ordered()) && old(totalBytes) + size < Word && old(count) + 1 < Word ==> Ordered()
    {
      totalBytes := Add(totalBytes, size);
      count := Add(count, 1);
    }

    /** `write<T>()`: one access of the given size, counted as a write as well. */
    method Write(size: nat)
      requires Valid() && size < Word
      modifies this
      ensures Valid()
      ensures Values() == TraceValues(old(allocBytes), Add(old(totalBytes), size), Add(old(count), 1),
                                      Add(old(wBytes), size), Add(old(countWrite), 1))
      ensures old(Ordered()) && old(totalBytes) + size < Word && old(count) + 1 < Word ==> Ordered()
    {
      totalBytes := Add(totalBytes, size);
      count := Add(count, 1);
      wBytes := Add(wBytes, size);
      countWrite := Add(countWrite, 1);
    }

    /** `read<T>(amount)`: amount accesses of the given size. */
    method ReadN(amount: nat, size: nat)
      requires Valid() && amount < Word && size < Word
      modifies this
      ensures Valid()
      ensures Values() == old(Values()).(totalBytes := Add(old(totalBytes), Mul(amount, size)),
                                         count := Add(old(count), amount))
      ensures old(Ordered()) && old(totalBytes) + amount * size < Word && old(count) + amount < Word ==> Ordered()
    {
      totalBytes := Add(totalBytes, Mul(amount, size));
      count := Add(count, amount);
    }

    /** `write<T>(amount)`: amount accesses of the given size, counted as writes as well. */
    method WriteN(amount: nat, size: nat)
      requires Valid() && amount < Word && size < Word
      modifies this
      ensures Valid()
      ensures Values() == TraceValues(old(allocBytes), Add(old(totalBytes), Mul(amount, size)), Add(old(count), amount),
                                      Add(old(wBytes), Mul(amount, size)), Add(old(countWrite), amount))
      ensures old(Ordered()) && old(totalBytes) + amount * size < Word && old(count) + amount < Word ==> Ordered()
    {
      totalBytes := Add(totalBytes, Mul(amount, size));
      count := Add(count, amount);
      wBytes := Add(wBytes, Mul(amount, size));
      countWrite := Add(countWrite, amount);
    }
  }
}
