/** Selection of the shared x-axis from the topic marked `xaxis`. */
module XAxes {
  import opened Outcome
  import opened Util
  import opened Attributes
  import opened Input

  /** The shared x-axis: its unit, its display label and, for a real axis, its samples. */
  datatype XAxis = XAxis(unit: string, name: string, data: Option<seq<Float64>>)

  /** The topic carries the `xaxis` directive. */
  predicate IsAxis(t: Topic) {
    Xaxis in t.attrs
  }

  /**
   * Scans the topics for the one marked `xaxis`: none gives no index, one
   * gives its index, and a second one aborts.  The topics are only read.
   */
  method FindAxis(topics: seq<Topic>) returns (r: Result<Option<nat>, Failure>)
    ensures r.Err? <==> exists i, j :: 0 <= i < j < |topics| && IsAxis(topics[i]) && IsAxis(topics[j])
    ensures r.Err? ==> r.error == MultipleXaxis
    ensures r == Ok(None) ==> forall i :: 0 <= i < |topics| ==> !IsAxis(topics[i])
    ensures r.Ok? && r.value.Some? ==>
              r.value.value < |topics| && IsAxis(topics[r.value.value]) &&
              forall i :: 0 <= i < |topics| && i != r.value.value ==> !IsAxis(topics[i])
  {
    var out: Option<nat> := None;
    for i := 0 to |topics|
      invariant out.None? ==> forall k :: 0 <= k < i ==> !IsAxis(topics[k])
      invariant out.Some? ==> out.value < i && IsAxis(topics[out.value]) &&
                              forall k :: 0 <= k < i && k != out.value ==> !IsAxis(topics[k])
    {
      if Xaxis in topics[i].attrs {
        if out.Some? {
          return Err(MultipleXaxis);
        } else {
          out := Some(i);
        }
      }
    }
    return Ok(out);
  }

  /**
   * The axis built from the scan's outcome: the marked topic's unit, a label
   * "base (unit)" and its samples; or, with no marked topic, a synthetic
   * unitless "Index" axis without samples.
   */
  function AxisFor(topics: seq<Topic>, index: Option<nat>): (axis: XAxis)
    requires index.Some? ==> index.value < |topics|
    ensures index.None? ==> axis == XAxis(Unitless, "Index", None)
    ensures index.Some? ==>
              var t := topics[index.value];
              axis.unit == t.unit && axis.data == Some(t.data) &&
              axis.name == t.nameBase + " (" + t.unit + ")"
  {
    match index
    case Some(i) =>
      var t := topics[i];
      XAxis(t.unit, t.nameBase + " (" + t.unit + ")", Some(t.data))
    case None =>
      XAxis(Unitless, "Index", None)
  }

  /**
   * Resolves the shared x-axis.  It fails exactly when two topics are marked
   * `xaxis`; with one marked topic the axis takes that topic's unit and
   * samples and is labelled "base (unit)"; with none it is the synthetic
   * unitless "Index" axis.
   */
  method XAxisFrom(topics: seq<Topic>) returns (r: Result<XAxis, Failure>)
    ensures r.Err? <==> exists i, j :: 0 <= i < j < |topics| && IsAxis(topics[i]) && IsAxis(topics[j])
    ensures r.Err? ==> r.error == MultipleXaxis
    ensures r.Ok? && (forall i :: 0 <= i < |topics| ==> !IsAxis(topics[i])) ==>
              r.value == XAxis(Unitless, "Index", None)
    ensures r.Ok? ==>
              forall k :: 0 <= k < |topics| && IsAxis(topics[k]) ==>
                r.value.unit == topics[k].unit && r.value.data == Some(topics[k].data) &&
                r.value.name == topics[k].nameBase + " (" + topics[k].unit + ")"
  {
    var index := FindAxis(topics);
    match index
    case Err(e) => return Err(e);
    case Ok(i) => return Ok(AxisFor(topics, i));
  }
}
