/**
 * modules/utils.py: the overlap test accepts, on either side, a node (read
 * through its x()/y() accessors) or a bare coordinate pair (read by index).
 */
module Utils {
  import opened Geometry
  import opened Core

  /** One side of the overlap test. */
  datatype Operand = NodeOperand(node: Knoten) | PairOperand(x: int, y: int)

  function Footprint(o: Operand): set<object>
  {
    if o.NodeOperand? then {o.node} else {}
  }

  /** The coordinates an operand stands for. */
  function Coordinates(o: Operand): Point
    reads Footprint(o)
  {
    match o
    case NodeOperand(k) => Point(k.X(), k.Y())
    case PairOperand(x, y) => Point(x, y)
  }

  /**
   * Do the 10x10 boxes whose top-left corners are a and b overlap? Both
   * coordinate differences must be strictly below the box size.
   */
  predicate RectangleCollide(a: Operand, b: Operand)
    reads Footprint(a), Footprint(b)
    ensures RectangleCollide(a, b) <==>
      Abs(Coordinates(a).x - Coordinates(b).x) < BOX_WIDTH && Abs(Coordinates(a).y - Coordinates(b).y) < BOX_HEIGHT
  {
    Collide(Coordinates(a), Coordinates(b))
  }

  /** Only coordinates matter: a node and the bare pair of its coordinates are interchangeable. */
  lemma NodeOrPairAgree(k: Knoten, b: Operand)
    ensures RectangleCollide(NodeOperand(k), b) == RectangleCollide(PairOperand(k.pos.x, k.pos.y), b)
    ensures RectangleCollide(b, NodeOperand(k)) == RectangleCollide(b, PairOperand(k.pos.x, k.pos.y))
  {
  }

  /** Argument order does not matter. */
  lemma RectangleCollideSymmetric(a: Operand, b: Operand)
    ensures RectangleCollide(a, b) == RectangleCollide(b, a)
  {
    CollideSymmetric(Coordinates(a), Coordinates(b));
  }
}
