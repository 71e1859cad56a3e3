/** The buffer's capacity policy. The C code scales by the double constant
    DICT_GROW_RATIO = 1.2 and truncates; here 1.2 is the exact ratio 6/5, so
    growth is ((capacity + 1) * 6) / 5 and the shrink test is
    5 * capacity > 6 * length. */
module Growth {

  /** The capacity a full buffer grows to: (capacity + 1) × 1.2, rounded down. */
  function Grown(capacity: nat): (r: nat)
    ensures r > capacity
  {
    (capacity + 1) * 6 / 5
  }

  /** The shrink test of the removal operations: capacity > 1.2 × length,
      that is, the capacity exceeds the length plus a fifth of it rounded
      down. A buffer that is too large has at least one spare slot. */
  predicate TooLarge(capacity: nat, length: nat): (r: bool)
    ensures r <==> capacity > length + length / 5
    ensures r ==> length < capacity
  {
    5 * capacity > 6 * length
  }

  /** Capacity after an append has brought the length to `length`: the buffer
      grows exactly when the length has reached the capacity. */
  function AfterAppend(length: nat, capacity: nat): (r: nat)
    ensures length <= capacity ==> length < r
    ensures capacity <= r
    ensures r != capacity <==> length == capacity
  {
    if length == capacity then Grown(capacity) else capacity
  }

  /** Capacity after a removal has brought the length to `length`: cut down
      to length + 1 when it exceeds 1.2 × length, otherwise kept. */
  function AfterRemove(length: nat, capacity: nat): (r: nat)
    ensures length < capacity ==> length < r <= capacity
    ensures 5 * r <= 6 * length || r == length + 1
    ensures r == capacity || r == length + 1
    ensures r < capacity ==> TooLarge(capacity, length)
  {
    if TooLarge(capacity, length) then length + 1 else capacity
  }

  /** The first capacities a dictionary passes through while it only grows,
      starting from the initial capacity 1. */
  lemma GrowthTable()
    ensures Grown(1) == 2 && Grown(2) == 3 && Grown(3) == 4
    ensures Grown(4) == 6 && Grown(6) == 8 && Grown(8) == 10
    ensures Grown(10) == 13 && Grown(13) == 16 && Grown(16) == 20
  {
  }
}
