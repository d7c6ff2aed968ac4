/** Integer grid points shared by the board, the pieces and the borders.
    The playfield origin is top-left: x grows to the right, y grows downwards. */
module Grid {

  datatype Vec2D = Vec2D(x: int, y: int) {

    /** Component-wise sum, the `+` of two grid vectors. */
    function Add(other: Vec2D): Vec2D {
      Vec2D(x + other.x, y + other.y)
    }
  }
}
