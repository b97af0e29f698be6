/** The seeded generator `*rand.Rand`. Its algorithm is not modelled: the
    generator is the sequence of values its `Int63` calls return (the tape
    that `rand.NewSource(seed)` determines), consumed one per call. */
module Source {
  import opened Types

  class Rand {
    /** Every value the generator will hand out, in order. */
    const tape: seq<Draw>
    /** How many of them have been handed out. */
    var pos: nat

    ghost predicate Valid()
      reads this
    {
      pos <= |tape|
    }

    constructor (tape: seq<Draw>)
      ensures Valid() && this.tape == tape && pos == 0
    {
      this.tape := tape;
      pos := 0;
    }

    /** `Int63()`: the next value of the tape. */
    method Int63() returns (r: Draw)
      requires Valid() && pos < |tape|
      modifies this`pos
      ensures Valid() && pos == old(pos) + 1
      ensures r == tape[old(pos)]
    {
      r := tape[pos];
      pos := pos + 1;
    }

    /** `Intn(n)`: a value in [0, n), taken from the next value of the tape.
        Go panics when n <= 0. */
    method Intn(n: int) returns (r: int)
      requires 0 < n
      requires Valid() && pos < |tape|
      modifies this`pos
      ensures Valid() && pos == old(pos) + 1
      ensures 0 <= r < n && r == tape[old(pos)] % n
    {
      r := tape[pos] % n;
      pos := pos + 1;
    }
  }
}
