/**
 Index arithmetic of the ring: 32-bit indices, advanced with a mask instead of a
 division.  `SIZE` is any value the compile-time guard lets through, except 0.
 */
module RingIndex {
  import opened Bits

  /** The device casts the shuttle address to a ring of this size. */
  const SHUTTLE_SIZE: nat := 1024

  predicate SizeOk(size: nat) {
    size >= 1 && And(size, size - 1) == 0
  }

  /** How many distinct index values there are: the mask cannot see past 32 bits. */
  function Modulus(size: nat): nat {
    if size < TWO_32 then size else TWO_32
  }

  /** `(x + 1) & (SIZE - 1)`, with `x` an unsigned 32-bit integer. */
  function Next(x: nat, size: nat): nat
    requires size >= 1
  {
    And((x + 1) % TWO_32, size - 1)
  }

  /** n, less as many whole laps of m slots as it holds. */
  function Lap(n: nat, m: nat): nat
    requires m >= 1
  {
    if n < m then n else Lap(n - m, m)
  }

  /** The index a cell holds after n advances from 0. */
  function IndexAfter(size: nat, n: nat): nat
    requires size >= 1
  {
    Lap(n, Modulus(size))
  }

  /** The sizes covered are all the powers of two, 1 included. */
  lemma SizeOkExactly(size: nat)
    ensures SizeOk(size) <==> IsPow2(size)
  {
    if size >= 1 { PowerOfTwoGuard(size); }
  }

  lemma MaskIsMod(y: nat, size: nat)
    requires SizeOk(size)
    ensures And(y, size - 1) == y % size
  {
    PowerOfTwoGuard(size);
    var k: nat :| Pow2(k) == size;
    AndMaskIsMod(y, k);
  }

  /** The mask wraps exactly like an increment modulo the number of slots in use. */
  lemma NextWraps(x: nat, size: nat)
    requires SizeOk(size) && x < Modulus(size)
    ensures Next(x, size) == if x + 1 == Modulus(size) then 0 else x + 1
  {
    if x + 1 == TWO_32 {
      MaskIsMod(0, size);
      ModSmall(0, size);
    } else {
      ModSmall(x + 1, TWO_32);
      MaskIsMod(x + 1, size);
      if x + 1 == size {
        ModSmall(0, size);
        ModLap(0, size);
      } else {
        ModSmall(x + 1, size);
      }
    }
  }

  lemma {:induction false} LapBound(n: nat, m: nat)
    requires m >= 1
    ensures Lap(n, m) < m
    ensures Lap(n, m) == n % m
  {
    if n < m {
      ModSmall(n, m);
    } else {
      LapBound(n - m, m);
      ModLap(n - m, m);
    }
  }

  /** Storing `(index + 1) & (SIZE - 1)` is advancing by one, modulo the slots in use. */
  lemma IndexStep(size: nat, n: nat)
    requires SizeOk(size)
    ensures Next(IndexAfter(size, n), size) == IndexAfter(size, n + 1)
    ensures IndexAfter(size, n) == n % Modulus(size)
    ensures IndexAfter(size, n) < Modulus(size) <= size
  {
    var m := Modulus(size);
    LapBound(n, m);
    LapBound(n + 1, m);
    NextWraps(n % m, size);
    ModStep(n, m);
  }

  /** Two counts less than a lap apart have different indices ... */
  lemma IndexDistinct(size: nat, a: nat, b: nat)
    requires SizeOk(size) && a < b < a + Modulus(size)
    ensures IndexAfter(size, a) != IndexAfter(size, b)
  {
    LapBound(a, Modulus(size));
    LapBound(b, Modulus(size));
    ModApart(a, b, Modulus(size));
  }

  /** ... and a full lap brings the index back. */
  lemma IndexPeriod(size: nat, a: nat)
    requires size >= 1
    ensures IndexAfter(size, a + Modulus(size)) == IndexAfter(size, a)
  {
  }

  /** The full test compares "one past head" with tail: within a lap it holds exactly one slot short. */
  lemma FullTest(size: nat, head: nat, tail: nat)
    requires SizeOk(size) && tail <= head < tail + Modulus(size)
    ensures Next(IndexAfter(size, head), size) == IndexAfter(size, tail)
            <==> head - tail == Modulus(size) - 1
  {
    IndexStep(size, head);
    if head + 1 == tail + Modulus(size) {
      IndexPeriod(size, tail);
    } else {
      IndexDistinct(size, tail, head + 1);
    }
  }
}
