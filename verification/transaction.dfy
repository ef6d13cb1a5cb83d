/** `Model::apply`: recalculate, check that every head has a target state,
    then turn each state into requests on one output configuration of the
    wlr-output-management-unstable-v1 protocol and submit it. */
module Transaction {
  import opened Wrappers
  import opened Geometry
  import opened MetaModes
  import opened MetaHeads
  import opened TargetStates
  import opened PendingStates
  import opened Resolver
  import Actions
  import Text

  /** A request sent on the output configuration or one of its heads. */
  datatype Request =
    | EnableHead(id: string)
    | SetPositionRequest(id: string, x: int, y: int)
    | SetScaleRequest(id: string, scale: real)
    | SetTransformRequest(id: string, transform: int)
    | SetAdaptiveSyncRequest(id: string, state: uint32)
    | SetModeRequest(id: string, mode: MetaMode)
    | SetCustomModeRequest(id: string, width: int, height: int, refresh: int)
    | DisableHead(id: string)

  function RequestTarget(q: Request): string {
    q.id
  }

  /** What `apply` does: stops when a head has no state, or submits the
      configuration built from these requests. */
  datatype ApplyOutcome =
    | MissingTargetState(id: string)
    | Submitted(requests: seq<Request>)

  /** The mode requests for a switched-on output: a size that is not empty
      and a positive rate select a mode. An output that is not built in and
      offers a matching mode gets that mode (if the compositor still knows
      it); otherwise a custom mode is requested, the rate cast to `int32_t`. */
  function ModeRequests(id: string, st: TargetState, head: MetaHead, src: IdSource): (r: seq<Request>)
    ensures SizeIsEmpty(st.dimensions) || st.refresh == 0 ==> r == []
    ensures |r| <= 1
    ensures forall q :: q in r ==> RequestTarget(q) == id
    ensures forall q :: q in r && q.SetCustomModeRequest? ==>
      q.width == st.dimensions.w && q.height == st.dimensions.h && q.refresh == Int32Of(st.refresh)
    ensures forall q :: q in r && q.SetModeRequest? ==>
      q.mode.hasWlrMode && ModeMatches(q.mode, st.dimensions.w, st.dimensions.h, st.refresh) && q.mode in head.modes
    ensures IsBuiltIn(head, src).0 && !SizeIsEmpty(st.dimensions) && st.refresh > 0 ==>
      r == [SetCustomModeRequest(id, st.dimensions.w, st.dimensions.h, Int32Of(st.refresh))]
  {
    if SizeIsEmpty(st.dimensions) || st.refresh == 0 then []
    else
      var mode := GetModeForOutputHead(head, st.dimensions.w, st.dimensions.h, st.refresh);
      if !IsBuiltIn(head, src).0 && mode.Some? then
        if mode.value.hasWlrMode then [SetModeRequest(id, mode.value)] else []
      else [SetCustomModeRequest(id, st.dimensions.w, st.dimensions.h, Int32Of(st.refresh))]
  }

  /** The requests for one output. A switched-on output is enabled and given
      position, scale, transform (as `quint8`) and adaptive sync, then its
      mode; a switched-off output is disabled. Without a compositor head
      neither can be done, and nothing is sent for it. */
  function OutputRequests(id: string, st: TargetState, head: MetaHead, src: IdSource): (r: seq<Request>)
    ensures !head.hasWlrHead ==> r == []
    ensures head.hasWlrHead && !st.on ==> r == [DisableHead(id)]
    ensures head.hasWlrHead && st.on ==>
      && |r| >= 5 && r[0] == EnableHead(id)
      && r[1] == SetPositionRequest(id, st.position.x, st.position.y)
      && r[2] == SetScaleRequest(id, st.scale)
      && r[3] == SetTransformRequest(id, Uint8Of(st.transform))
      && r[4] == SetAdaptiveSyncRequest(id, st.adaptiveSync)
    ensures forall q :: q in r ==> RequestTarget(q) == id
  {
    if !head.hasWlrHead then []
    else if st.on then
      [EnableHead(id),
       SetPositionRequest(id, st.position.x, st.position.y),
       SetScaleRequest(id, st.scale),
       SetTransformRequest(id, Uint8Of(st.transform)),
       SetAdaptiveSyncRequest(id, st.adaptiveSync)]
      + ModeRequests(id, st, head, src)
    else [DisableHead(id)]
  }

  /** The requests of one output, when the loop reaches it. */
  function RequestsOf(id: string, states: Pending, heads: seq<MetaHead>, src: IdSource): (r: seq<Request>)
    ensures forall q :: q in r ==> RequestTarget(q) == id && Get(states, id).Some? && GetOutputHead(heads, id).Some?
  {
    match (Get(states, id), GetOutputHead(heads, id))
    case (Some(st), Some(i)) => OutputRequests(id, st, heads[i], src)
    case _ => []
  }

  /** The loop over the states in key order; null states and identifiers
      without a head are skipped. */
  function Requests(keys: seq<string>, states: Pending, heads: seq<MetaHead>, src: IdSource): (r: seq<Request>)
    ensures forall q :: q in r ==> RequestTarget(q) in keys && Get(states, RequestTarget(q)).Some?
    ensures forall q :: q in r ==> GetOutputHead(heads, RequestTarget(q)).Some?
    decreases |keys|
  {
    if keys == [] then []
    else
      RequestsOf(keys[0], states, heads, src) + Requests(keys[1..], states, heads, src)
  }

  /** The first head, if any, whose identifier has no state. */
  function MissingHead(heads: seq<MetaHead>, states: Pending): (r: Option<nat>)
    ensures r.Some? ==> r.value < |heads| && Identifier(heads[r.value]) !in states
    ensures r.None? <==> forall i :: 0 <= i < |heads| ==> Identifier(heads[i]) in states
  {
    Seqs.FirstIndexWhere(heads, (h: MetaHead) => Identifier(h) !in states)
  }

  /** `Model::apply` on a given calculation result and head list. */
  ghost function ApplyResult(res: CalcResult, heads: seq<MetaHead>, src: IdSource): (r: ApplyOutcome)
    ensures r.MissingTargetState? <==> exists i :: 0 <= i < |heads| && Identifier(heads[i]) !in res.outputStates
    ensures r.MissingTargetState? ==> r.id !in res.outputStates
  {
    match MissingHead(heads, res.outputStates)
    case Some(i) => MissingTargetState(Identifier(heads[i]))
    case None => Submitted(Requests(Text.SortedKeys(res.outputStates.Keys), res.outputStates, heads, src))
  }

  /** `Model::apply`: every head is asked for its identifier, the result is
      recalculated from the queue, then applied. */
  ghost function Apply(heads: seq<MetaHead>, store: seq<Actions.Action>, shim: bool, src: IdSource): (r: ApplyOutcome)
    ensures r.Submitted?
  {
    var hs := IdentifyAll(heads, src);
    var res := Calculate(hs, store, shim);
    CalculateCoversHeads(hs, store, shim);
    ApplyResult(res, hs, src)
  }

  /** The requests addressed to one output, in order. */
  function ForOutput(r: seq<Request>, id: string): (f: seq<Request>)
    ensures forall q :: q in f <==> q in r && RequestTarget(q) == id
  {
    if r == [] then []
    else
      assert forall q :: q in r <==> q == r[0] || q in r[1..];
      (if RequestTarget(r[0]) == id then [r[0]] else []) + ForOutput(r[1..], id)
  }

  lemma {:induction false} ForOutputAppend(a: seq<Request>, b: seq<Request>, id: string)
    ensures ForOutput(a + b, id) == ForOutput(a, id) + ForOutput(b, id)
    decreases |a|
  {
    if a != [] {
      var h := if RequestTarget(a[0]) == id then [a[0]] else [];
      assert (a + b)[0] == a[0];
      assert (a + b)[1..] == a[1..] + b;
      assert ForOutput(a + b, id) == h + ForOutput(a[1..] + b, id);
      ForOutputAppend(a[1..], b, id);
      assert ForOutput(a, id) == h + ForOutput(a[1..], id);
    } else {
      assert a + b == b;
    }
  }

  lemma ForOutputAll(r: seq<Request>, id: string)
    requires forall q :: q in r ==> RequestTarget(q) == id
    ensures ForOutput(r, id) == r
  {
    if r != [] {
      ForOutputAll(r[1..], id);
    }
  }

  lemma ForOutputNone(r: seq<Request>, id: string)
    requires forall q :: q in r ==> RequestTarget(q) != id
    ensures ForOutput(r, id) == []
  {
    if r != [] {
      ForOutputNone(r[1..], id);
    }
  }

  /** The submitted configuration, read output by output: each output
      present in the loop gets exactly the requests its own state and head
      call for, and nothing else is addressed to it. */
  lemma {:induction false} RequestsPerOutput(keys: seq<string>, states: Pending, heads: seq<MetaHead>, src: IdSource, id: string)
    requires Seqs.Distinct(keys)
    ensures ForOutput(Requests(keys, states, heads, src), id) == (if id in keys then RequestsOf(id, states, heads, src) else [])
    decreases |keys|
  {
    if keys != [] {
      var k := keys[0];
      assert Seqs.Distinct(keys[1..]) && k !in keys[1..] by {
        forall i | 0 <= i < |keys[1..]|
          ensures keys[1..][i] != k
        {
          assert keys[1..][i] == keys[i + 1];
        }
        forall i, j | 0 <= i < j < |keys[1..]|
          ensures keys[1..][i] != keys[1..][j]
        {
          assert keys[1..][i] == keys[i + 1] && keys[1..][j] == keys[j + 1];
        }
      }
      RequestsPerOutput(keys[1..], states, heads, src, id);
      var here := RequestsOf(k, states, heads, src);
      assert Requests(keys, states, heads, src) == here + Requests(keys[1..], states, heads, src);
      ForOutputAppend(here, Requests(keys[1..], states, heads, src), id);
      if k == id {
        ForOutputAll(here, id);
      } else {
        ForOutputNone(here, id);
      }
    }
  }
}
