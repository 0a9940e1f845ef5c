/**
 * The two graph entities of modules/core.py: a node (Knoten) that owns a
 * mutable coordinate list, and an edge (Kante) that joins two nodes.
 */
module Core {
  import opened Geometry

  /**
   * A node of the drawing. Its coordinate pair is a field that SetX and SetY
   * update; the width and height of its box are fixed at construction.
   */
  class Knoten {
    var pos: Point
    /** `id(self) % 1000` in the program: an identity-derived value, left unconstrained. */
    var id: int
    const width: int
    const height: int
    var isStart: bool
    var isEnd: bool

    /** A new node at pos, flagged neither start nor end. */
    constructor (pos: Point)
      ensures this.pos == pos
      ensures width == BOX_WIDTH && height == BOX_HEIGHT
      ensures !isStart && !isEnd
    {
      this.pos := pos;
      width := BOX_WIDTH;
      height := BOX_HEIGHT;
      isStart := false;
      isEnd := false;
    }

    function X(): int
      reads this
    {
      pos.x
    }

    function Y(): int
      reads this
    {
      pos.y
    }

    /** Moves the node horizontally; its y coordinate stays as it was. */
    method SetX(x: int)
      modifies this`pos
      ensures pos == Point(x, old(pos.y))
    {
      pos := pos.(x := x);
    }

    /** Moves the node vertically; its x coordinate stays as it was. */
    method SetY(y: int)
      modifies this`pos
      ensures pos == Point(old(pos.x), y)
    {
      pos := pos.(y := y);
    }
  }

  /** An edge between two nodes; the program never updates an edge after building it. */
  datatype Kante = Kante(pos1: Knoten, pos2: Knoten)
}
