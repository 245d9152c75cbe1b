/** Mention edges (src/Mention.java, as Graph.java builds them). */
module Mentions {

  /** A directed edge between two artists, which it names by id only. The
      weight is the reciprocal of the number of mentions in the input record.
      The destructors are the record's getters; a datatype value never changes,
      as the final fields of the Java class do not. Two equal-looking mentions
      are still two elements of an adjacency sequence. */
  datatype Mention = Mention(source: int, destination: int, weight: real)

  /** The weight of an edge recorded with `count` mentions: `1 / count`
      (src/Graph.java:59). More mentions make a lighter edge. */
  function WeightOf(count: int): (w: real)
    requires count > 0
    ensures w > 0.0
    ensures w <= 1.0
    ensures w * (count as real) == 1.0
  {
    1.0 / (count as real)
  }
}
