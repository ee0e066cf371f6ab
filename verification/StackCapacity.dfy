/** How the backing array of a value stack grows. */
module StackCapacity {

  function Max(a: int, b: int): int {
    if a > b then a else b
  }

  function Min(a: int, b: int): int {
    if a < b then a else b
  }

  /** The capacity to grow to: half as much again at a time, never past the limit. */
  function Capacity(capacity: nat, required: nat, limit: nat): (r: nat)
    requires required <= limit && capacity <= limit
    ensures Max(required, capacity) <= r <= limit
    decreases limit - capacity
  {
    if capacity >= required then capacity
    else
      var growth := if capacity / 2 == 0 then 1 else capacity / 2;
      if capacity > limit - growth then limit else Capacity(capacity + growth, required, limit)
  }

  function NewCapacity(current: nat, required: nat, limit: nat): (r: nat)
    requires required <= limit && current <= limit
    ensures Max(required, current) <= r <= limit
  {
    Capacity(Min(Max(current, 16), limit), required, limit)
  }

  /** The capacity for `required` slots when there are `current`. */
  method GrownCapacity(current: nat, required: nat, limit: nat) returns (capacity: nat)
    requires required <= limit && current <= limit
    ensures capacity == NewCapacity(current, required, limit)
  {
    capacity := if current < 16 then 16 else current;
    if capacity > limit {
      capacity := limit;
    }
    ghost var start := capacity;
    while capacity < required
      invariant capacity <= limit && Capacity(capacity, required, limit) == Capacity(start, required, limit)
      decreases limit - capacity
    {
      var growth := if capacity / 2 == 0 then 1 else capacity / 2;
      if capacity > limit - growth {
        capacity := limit;
        break;
      }
      capacity := capacity + growth;
    }
  }
}
