/** The search node of `Node.java`: a grid coordinate, the cost `g` from the
    start, the heuristic estimate `h` to the target and a link to the node it
    was expanded from. Ordering looks at `f = g + h` only; equality and
    hashing look at the coordinate only. */
module Nodes {
  import opened Wrappers

  /** A grid coordinate (row, column). */
  datatype Cell = Cell(row: int, col: int)

  /** The Java constructor stores its five arguments unchanged and the getters
      return them: a datatype value is exactly that. A `null` parent is `None`. */
  datatype Node = Node(row: int, col: int, g: int, h: int, parent: Option<Node>) {

    /** The coordinate this node stands for. */
    function Coord(): Cell {
      Cell(row, col)
    }

    /** Total estimated cost through this node. */
    function F(): int {
      g + h
    }
  }

  /** `Integer.compare` applied to the f values: -1, 0 or 1. */
  function CompareTo(a: Node, b: Node): (r: int)
    ensures r == -1 || r == 0 || r == 1
    ensures r < 0 <==> a.g + a.h < b.g + b.h
    ensures r == 0 <==> a.g + a.h == b.g + b.h
    ensures r > 0 <==> a.g + a.h > b.g + b.h
  {
    if a.F() < b.F() then -1 else if a.F() == b.F() then 0 else 1
  }

  /** Comparison is antisymmetric and sees nothing of a node but its f value. */
  lemma CompareToOnlyByF(a: Node, b: Node, a': Node, b': Node)
    requires a.F() == a'.F() && b.F() == b'.F()
    ensures CompareTo(a, b) == CompareTo(a', b')
    ensures CompareTo(a, b) == -CompareTo(b, a)
  {
  }

  /** `equals(Object)`: false for `null`, otherwise the coordinates decide.
      The identity short-cut agrees, since a node has its own coordinate. */
  function Equals(a: Node, obj: Option<Node>): (r: bool)
    ensures r <==> obj.Some? && obj.value.Coord() == a.Coord()
  {
    match obj
    case None => false
    case Some(b) => a.row == b.row && a.col == b.col
  }

  /** `equals` ignores g, h and parent, and is an equivalence relation. */
  lemma EqualsIsCoordinateEquivalence(a: Node, b: Node, c: Node)
    ensures Equals(a, Some(a))
    ensures Equals(a, Some(b)) <==> Equals(b, Some(a))
    ensures Equals(a, Some(b)) && Equals(b, Some(c)) ==> Equals(a, Some(c))
    ensures Equals(a, Some(b)) <==> Equals(Node(a.row, a.col, b.g, b.h, b.parent), Some(b))
  {
  }

  const TwoTo32: int := 0x1_0000_0000
  const TwoTo31: int := 0x8000_0000

  /** Two's-complement truncation of a mathematical integer to a Java `int`. */
  function ToInt32(x: int): (r: int)
    ensures -TwoTo31 <= r < TwoTo31
    ensures (x - r) % TwoTo32 == 0
  {
    var m := x % TwoTo32;
    if m >= TwoTo31 then m - TwoTo32 else m
  }

  /** `Objects.hash(row, col)`, which is `31 * (31 * 1 + row) + col` in
      32-bit arithmetic. */
  function HashCode(n: Node): (r: int)
    ensures -TwoTo31 <= r < TwoTo31
  {
    ToInt32(31 * (31 + n.row) + n.col)
  }

  /** The hash is consistent with `equals`: equal nodes hash alike. */
  lemma HashConsistentWithEquals(a: Node, b: Node)
    requires Equals(a, Some(b))
    ensures HashCode(a) == HashCode(b)
  {
  }
}
