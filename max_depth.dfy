/** The max_depth metric: the largest rendered depth, NaN pixels skipped. */
module MaxDepth {
  import opened Floats
  import opened Frame

  /** `calculateMaxDepth2`: a running maximum seeded with -FLT_MAX over the first
      height*width depths, raised whenever a non-NaN depth is strictly larger. */
  method CalculateMaxDepth(depthData: seq<Float>, height: int, width: int) returns (depth: Float)
    requires |depthData| >= PixelCount(height, width)
    ensures !IsNaN(depth) && Le(NegFltMax, depth)
    ensures forall i :: 0 <= i < PixelCount(height, width) && !IsNaN(depthData[i]) ==>
              Le(depthData[i], depth)
    ensures depth == NegFltMax ||
            exists i :: 0 <= i < PixelCount(height, width) && depthData[i] == depth
    ensures (forall i :: 0 <= i < PixelCount(height, width) ==> IsNaN(depthData[i])) ==>
              depth == NegFltMax
  {
    var size := PixelCount(height, width);
    depth := NegFltMax;
    for i := 0 to size
      invariant !IsNaN(depth) && Le(NegFltMax, depth)
      invariant forall k :: 0 <= k < i && !IsNaN(depthData[k]) ==> Le(depthData[k], depth)
      invariant depth == NegFltMax || exists k :: 0 <= k < i && depthData[k] == depth
    {
      if !IsNaN(depthData[i]) {
        if Lt(depth, depthData[i]) {
          depth := depthData[i];
        }
      }
    }
  }
}
