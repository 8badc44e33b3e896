/**
 * The run history that flows read their upstream input from: each flow name maps to its runs,
 * oldest first, and each run carries a success flag and the artifact the downstream step reads.
 * A trigger is the run whose completion started the current run, if any.
 */
module Runs {
  import opened Wrappers

  datatype Run<A> = Run(id: nat, successful: bool, data: A)

  /** The runs of one flow, oldest first. */
  type History<A> = seq<Run<A>>

  /** The run histories of the flows, by flow name. */
  type Registry<A> = map<string, History<A>>

  /** `Flow(name).latest_run`: the newest run whatever its status, `None` for a flow without runs. */
  function LatestRun<A>(h: History<A>): (r: Option<Run<A>>)
    ensures r.None? <==> h == []
    ensures r.Some? ==> r.value in h
    ensures r.Some? && IdsIncrease(h) ==> forall i :: 0 <= i < |h| ==> h[i].id <= r.value.id
  {
    if h == [] then None else Some(h[|h| - 1])
  }

  /** Run ids are handed out in increasing order. */
  predicate IdsIncrease<A>(h: History<A>) {
    forall i, j :: 0 <= i < j < |h| ==> h[i].id < h[j].id
  }

  /** `Flow(name).latest_successful_run`: the newest successful run, `None` when no run succeeded. */
  function LatestSuccessfulRun<A>(h: History<A>): (r: Option<Run<A>>)
    ensures r.None? <==> forall i :: 0 <= i < |h| ==> !h[i].successful
    ensures r.Some? ==> r.value.successful
    ensures r.Some? ==> exists i :: 0 <= i < |h| && h[i] == r.value && forall j :: i < j < |h| ==> !h[j].successful
  {
    if h == [] then None
    else if h[|h| - 1].successful then Some(h[|h| - 1])
    else
      var r := LatestSuccessfulRun(h[..|h| - 1]);
      assert forall i :: 0 <= i < |h| - 1 ==> h[..|h| - 1][i] == h[i];
      r
  }

  /**
   * How DataTableProcessor finds its input: the triggering run if there is one, otherwise the
   * newest run of `parentFlow` whatever its status.
   */
  function TriggerOrLatestRun<A>(trigger: Option<Run<A>>, registry: Registry<A>, parentFlow: string): (r: Result<Run<A>>)
    ensures trigger.Some? ==> r == Ok(trigger.value)
    ensures trigger.None? && parentFlow !in registry ==> r == Err(FlowNotFound)
    ensures trigger.None? && parentFlow in registry ==>
      (r.Ok? <==> registry[parentFlow] != []) &&
      (r.Ok? ==> r.value == registry[parentFlow][|registry[parentFlow]| - 1])
    ensures trigger.None? && parentFlow in registry && registry[parentFlow] == [] ==> r == Err(AttributeError)
    ensures r.Err? ==> r.error in {FlowNotFound, AttributeError}
  {
    match trigger
    case Some(run) => Ok(run)
    case None =>
      if parentFlow !in registry then Err(FlowNotFound)
      else
        match LatestRun(registry[parentFlow])
        case None => Err(AttributeError)
        case Some(run) => Ok(run)
  }

  /**
   * How PineconeVectorIndexer finds its input: the triggering run if there is one, otherwise the
   * newest successful run of `flow`.
   */
  function TriggerOrLatestSuccessfulRun<A>(trigger: Option<Run<A>>, registry: Registry<A>, flow: string): (r: Result<Run<A>>)
    ensures trigger.Some? ==> r == Ok(trigger.value)
    ensures trigger.None? && flow !in registry ==> r == Err(FlowNotFound)
    ensures trigger.None? && r.Ok? ==> r.value.successful && r.value in registry[flow]
    ensures trigger.None? && r.Ok? ==>
      var h := registry[flow];
      exists i :: 0 <= i < |h| && h[i] == r.value && forall j :: i < j < |h| ==> !h[j].successful
    ensures trigger.None? && flow in registry ==>
      (r.Err? <==> forall i :: 0 <= i < |registry[flow]| ==> !registry[flow][i].successful)
    ensures trigger.None? && flow in registry && r.Err? ==> r == Err(AttributeError)
  {
    match trigger
    case Some(run) => Ok(run)
    case None =>
      if flow !in registry then Err(FlowNotFound)
      else
        match LatestSuccessfulRun(registry[flow])
        case None => Err(AttributeError)
        case Some(run) => Ok(run)
  }

  /** Without a trigger the two fallbacks agree exactly when the newest run succeeded. */
  lemma FallbacksAgreeWhenNewestSucceeded<A>(registry: Registry<A>, flow: string)
    requires flow in registry && registry[flow] != []
    ensures (TriggerOrLatestRun(None, registry, flow) == TriggerOrLatestSuccessfulRun(None, registry, flow))
        <==> registry[flow][|registry[flow]| - 1].successful
  {
  }

  /** DataTableProcessor's fallback can pick a failed run although an earlier run succeeded. */
  lemma LatestRunMayBeUnsuccessful()
    ensures var registry: Registry<int> := map["MarkdownChunker" := [Run(1, true, 0), Run(2, false, 0)]];
      && TriggerOrLatestRun(None, registry, "MarkdownChunker") == Ok(Run(2, false, 0))
      && TriggerOrLatestSuccessfulRun(None, registry, "MarkdownChunker") == Ok(Run(1, true, 0))
  {
  }
}
