/**
 * An outgoing edge of a directed graph: the node it points to and the data it
 * carries. The origin is not part of the edge; it is implied by the out-edge
 * set the graph stores it in. Values are immutable, so the accessors of the
 * source are the datatype's destructors `destination` and `data`, and a Dafny
 * value can never be null.
 */
module Edges {

  datatype Edge<T(==), D(==)> = Edge(destination: T, data: D) {

    /** Structural equality: two edges are equal exactly when they are the same value. */
    function Equals(other: Edge<T, D>): (r: bool)
      ensures r <==> this == other
    {
      other.destination == destination && other.data == data
    }

    /**
     * Hash code as the source computes it, `31 * h(destination) ^ h(data)`,
     * in 32-bit two's-complement arithmetic; the hash functions of the node
     * and data types are parameters.
     */
    function HashCode(hashDestination: T -> bv32, hashData: D -> bv32): bv32
    {
      (31 * hashDestination(destination)) ^ hashData(data)
    }
  }

  /** `Equals` is an equivalence relation. */
  lemma EqualsIsEquivalence<T, D>(a: Edge<T, D>, b: Edge<T, D>, c: Edge<T, D>)
    ensures a.Equals(a)
    ensures a.Equals(b) ==> b.Equals(a)
    ensures a.Equals(b) && b.Equals(c) ==> a.Equals(c)
  {
  }

  /** Equal edges have equal hash codes. */
  lemma EqualEdgesHashEqual<T, D>(a: Edge<T, D>, b: Edge<T, D>, hd: T -> bv32, hx: D -> bv32)
    requires a.Equals(b)
    ensures a.HashCode(hd, hx) == b.HashCode(hd, hx)
  {
  }
}
