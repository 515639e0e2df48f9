/** `calculateMetric2`: the metric name selects which scoring routine runs and
    which of the caller's arguments it receives. Every routine also receives the
    rendered dataset and the image height and width, which are left implicit. */
module MetricDispatch {

  /** The scoring routine chosen, with the arguments that differ between routines.
      `Camera` and `Triangle` stand for the selector's camera and world triangles. */
  datatype MetricCall<Camera, Triangle> =
    | DataEntropy(fieldName: string)
    | VisibilityRatio(allTriangles: seq<Triangle>)
    | ViewpointEntropy(allTriangles: seq<Triangle>, camera: Camera)
    | Vkl(allTriangles: seq<Triangle>, camera: Camera)
    | VisibleTriangleCount
    | ProjectedArea(camera: Camera)
    | PlemenosBenayada(totalTriangles: real, camera: Camera)
    | DepthEntropy
    | MaxDepthOf

  datatype Result<T> = Ok(value: T) | Error(message: string)

  /** The message of ASCENT_ERROR for an unknown metric name. */
  const UnsupportedMetric: string := "This metric is not supported. \n"

  const MetricNames: set<string> := {
    "data_entropy", "visibility_ratio", "viewpoint_entropy", "vkl",
    "visible_triangles", "projected_area", "pb", "depth_entropy", "max_depth" }

  /** The name under which a routine is selected. */
  function MetricName<C, T>(call: MetricCall<C, T>): string
  {
    match call
    case DataEntropy(_) => "data_entropy"
    case VisibilityRatio(_) => "visibility_ratio"
    case ViewpointEntropy(_, _) => "viewpoint_entropy"
    case Vkl(_, _) => "vkl"
    case VisibleTriangleCount => "visible_triangles"
    case ProjectedArea(_) => "projected_area"
    case PlemenosBenayada(_, _) => "pb"
    case DepthEntropy => "depth_entropy"
    case MaxDepthOf => "max_depth"
  }

  /** A call as `calculateMetric2` would build it from these arguments:
      `pb` gets the number of world triangles as its total. */
  ghost predicate BuiltFrom<C, T>(call: MetricCall<C, T>, fieldName: string, allTriangles: seq<T>, camera: C)
  {
    match call
    case DataEntropy(f) => f == fieldName
    case VisibilityRatio(ts) => ts == allTriangles
    case ViewpointEntropy(ts, c) => ts == allTriangles && c == camera
    case Vkl(ts, c) => ts == allTriangles && c == camera
    case VisibleTriangleCount => true
    case ProjectedArea(c) => c == camera
    case PlemenosBenayada(n, c) => n == |allTriangles| as real && c == camera
    case DepthEntropy => true
    case MaxDepthOf => true
  }

  /** The if-chain of string comparisons; any other name raises the error. */
  function CalculateMetric<C, T>(metric: string, fieldName: string, allTriangles: seq<T>, camera: C)
    : (r: Result<MetricCall<C, T>>)
    ensures r.Ok? <==> metric in MetricNames
    ensures r.Error? ==> r.message == UnsupportedMetric
    ensures r.Ok? ==> MetricName(r.value) == metric && BuiltFrom(r.value, fieldName, allTriangles, camera)
  {
    if metric == "data_entropy" then Ok(DataEntropy(fieldName))
    else if metric == "visibility_ratio" then Ok(VisibilityRatio(allTriangles))
    else if metric == "viewpoint_entropy" then Ok(ViewpointEntropy(allTriangles, camera))
    else if metric == "vkl" then Ok(Vkl(allTriangles, camera))
    else if metric == "visible_triangles" then Ok(VisibleTriangleCount)
    else if metric == "projected_area" then Ok(ProjectedArea(camera))
    else if metric == "pb" then Ok(PlemenosBenayada(|allTriangles| as real, camera))
    else if metric == "depth_entropy" then Ok(DepthEntropy)
    else if metric == "max_depth" then Ok(MaxDepthOf)
    else Error(UnsupportedMetric)
  }

  /** Dispatch and naming are inverse: every routine is reached by exactly its name,
      with the arguments it is given. */
  lemma NameSelectsCall<C, T>(call: MetricCall<C, T>, fieldName: string, allTriangles: seq<T>, camera: C)
    requires BuiltFrom(call, fieldName, allTriangles, camera)
    ensures CalculateMetric(MetricName(call), fieldName, allTriangles, camera) == Ok(call)
  {
  }

  /** The field name reaches no routine but data_entropy. */
  lemma FieldNameOnlyForDataEntropy<C, T>(metric: string, f1: string, f2: string, allTriangles: seq<T>, camera: C)
    requires metric != "data_entropy"
    ensures CalculateMetric(metric, f1, allTriangles, camera) == CalculateMetric(metric, f2, allTriangles, camera)
  {
  }
}
