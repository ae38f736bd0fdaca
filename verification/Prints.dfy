// Arduino's Print, as far as responses need it: text goes either to the client,
// or to a CountingPrint that passes it on to a PrintNoOp.

module Prints {
  import opened Ints

  class Print {
    const counting: bool
    var text: string
    var count: uint32
    // All that was printed.
    ghost var printed: string

    // A client has received what was printed. A counter knows the length, in 32 bits.
    ghost predicate Valid()
      reads this
    {
      if counting then count == |printed| % 0x1_0000_0000 else text == printed
    }

    constructor (counting: bool)
      ensures Valid() && printed == "" && this.counting == counting && count == 0
    {
      this.counting := counting;
      text, count, printed := "", 0, "";
    }

    method PrintChar(c: char) returns (size: nat)
      requires Valid()
      modifies this
      ensures Valid() && printed == old(printed) + [c] && size == 1
    {
      size := PrintText([c]);
    }

    method PrintText(t: string) returns (size: nat)
      requires Valid()
      modifies this
      ensures Valid() && printed == old(printed) + t && size == |t|
    {
      size := |t|;
      if counting {
        count := (count + size) % 0x1_0000_0000;
      } else {
        text := text + t;
      }
      printed := printed + t;
    }
  }
}
