/** Kernel memory as 64-bit words at byte addresses. Words never written read as zero; every
    store is of a value that fits 64 bits. */
module Memory {
  import opened Widths
  import opened Bits

  type Words = map<int, int>

  function At(m: Words, a: int): int {
    if a in m then m[a] else 0
  }

  class Ram {
    var words: Words

    constructor ()
      ensures words == map[]
    {
      words := map[];
    }

    function Load(a: int): int
      reads this
    {
      At(words, a)
    }

    method Store(a: nat, v: Word)
      modifies this
      ensures words == old(words)[a := v]
    {
      words := words[a := v];
    }
  }
}
