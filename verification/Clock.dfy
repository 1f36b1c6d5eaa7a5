/** The Lamport clock that hands out indices. */
module Clocks {
  /** An index is the Lamport counter and 64 random bits, compared in this order. */
  datatype Index = Index(counter: nat, salt: nat)

  predicate IndexLess(a: Index, b: Index) {
    a.counter < b.counter || (a.counter == b.counter && a.salt < b.salt)
  }

  /** An index read as one number, the counter before the 64 random bits. */
  function AsNumber(i: Index): nat {
    i.counter * 0x1_0000_0000_0000_0000 + i.salt
  }

  lemma ComparedAsNumbers(a: Index, b: Index)
    requires a.salt < 0x1_0000_0000_0000_0000 && b.salt < 0x1_0000_0000_0000_0000
    ensures IndexLess(a, b) <==> AsNumber(a) < AsNumber(b)
  {
    if a.counter < b.counter {
      assert (a.counter + 1) * 0x1_0000_0000_0000_0000 <= b.counter * 0x1_0000_0000_0000_0000;
    } else if b.counter < a.counter {
      assert (b.counter + 1) * 0x1_0000_0000_0000_0000 <= a.counter * 0x1_0000_0000_0000_0000;
    }
  }

  class CausalHandler {
    var counter: nat

    constructor ()
      ensures counter == 0
    {
      counter := 0;
    }

    method GetIndex(salt: nat) returns (i: Index)
      modifies this
      ensures counter == old(counter) + 1 && i == Index(counter, salt)
      ensures forall j: Index :: j.counter <= old(counter) ==> IndexLess(j, i)
    {
      counter := counter + 1;
      i := Index(counter, salt);
    }

    method Observe(i: Index)
      modifies this
      ensures counter == if old(counter) < i.counter then i.counter else old(counter)
      ensures i.counter <= counter && old(counter) <= counter
    {
      if counter < i.counter {
        counter := i.counter;
      }
    }
  }
}
