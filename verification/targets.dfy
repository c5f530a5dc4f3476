/**
 The three detection targets a request may name, and the table that picks
 the detector weights and class filter for each.
 */
module Targets {
  import opened Wrappers

  /** The recognised request targets. */
  datatype Target = Stop | Tire | Person

  /** The request string naming each target. */
  function Name(t: Target): string {
    match t
    case Stop => "stop"
    case Tire => "tire"
    case Person => "person"
  }

  /** Reads a request's `target` field; anything but the three names is unknown. */
  function ParseTarget(s: string): (r: Option<Target>)
    ensures forall t :: r == Some(t) <==> s == Name(t)
    ensures r.None? <==> s !in {"stop", "tire", "person"}
  {
    if s == "stop" then Some(Stop)
    else if s == "tire" then Some(Tire)
    else if s == "person" then Some(Person)
    else None
  }

  /** The two weight files the node is configured with (`coco_model_path`, `tire_model_path`). */
  datatype Weights = CocoWeights | TireWeights

  /** Class id of "stop sign" in the COCO label set. */
  const StopSignClass: nat := 11

  /** What the detector is asked for: which weights, and the one class id to keep. */
  datatype Query = Query(weights: Weights, classId: nat)

  /** The `model_path` and `target_ids` tables of `detect`. */
  function QueryFor(t: Target): (q: Query)
    ensures q.weights == TireWeights <==> t == Tire
    ensures q.classId == StopSignClass <==> t == Stop
    ensures q.classId == 0 <==> t != Stop
  {
    match t
    case Stop => Query(CocoWeights, StopSignClass)
    case Tire => Query(TireWeights, 0)
    case Person => Query(CocoWeights, 0)
  }

  /**
   Tire and person both ask for class 0, but name different weight
   parameters, so no two targets name the same (weights parameter, class id)
   pair. Whether the two parameters hold different files is up to the
   node's configuration.
   */
  lemma QueriesAreDistinct(t: Target, u: Target)
    ensures QueryFor(t) == QueryFor(u) ==> t == u
    ensures QueryFor(t).classId == 0 <==> t != Stop
  {
  }
}
