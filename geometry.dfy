/** Plain integer geometry shared by the orientation and crop components:
    image sizes, pixel positions and crop boxes, with rows growing downwards
    as in the imaging library the application calls. */
module Geometry {

  /** Width and height of an image in pixels. */
  datatype Size = Size(width: nat, height: nat)

  /** A pixel position: column x, row y, origin at the top-left corner. */
  datatype Point = Point(x: int, y: int)

  /** A crop rectangle (left, top, right, bottom), right and bottom exclusive. */
  datatype Box = Box(left: int, top: int, right: int, bottom: int)

  predicate InBounds(p: Point, s: Size) {
    0 <= p.x < s.width && 0 <= p.y < s.height
  }

  /** The box lies inside an image of size s and is not inverted. */
  predicate Within(b: Box, s: Size) {
    0 <= b.left <= b.right <= s.width && 0 <= b.top <= b.bottom <= s.height
  }

  function BoxWidth(b: Box): int { b.right - b.left }

  function BoxHeight(b: Box): int { b.bottom - b.top }

  /** The same image turned a quarter: width and height exchanged. */
  function Transposed(s: Size): Size {
    Size(s.height, s.width)
  }
}
