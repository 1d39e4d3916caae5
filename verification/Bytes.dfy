// Octets on the line and in frame buffers.
module Bytes {
  type Octets = seq<bv8>

  const FLAG: bv8 := 0x7E

  // Segments one after the other.
  function Concat(segv: seq<Octets>): Octets {
    if segv == [] then [] else segv[0] + Concat(segv[1..])
  }

  lemma Associate<T>(a: seq<T>, b: seq<T>, d: seq<T>)
    ensures a + (b + d) == a + b + d
  {
  }
}
