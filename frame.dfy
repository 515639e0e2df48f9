/** The rendered frame's pixel count, shared by every metric. */
module Frame {

  /** The pixel count is the product of the image's height and width; a loop over
      the pixels runs that many times, or not at all when the product is not positive. */
  function PixelCount(height: int, width: int): (n: nat)
    ensures n == 0 <==> height * width <= 0
    ensures n > 0 ==> n == height * width
  {
    if height * width > 0 then height * width else 0
  }
}
