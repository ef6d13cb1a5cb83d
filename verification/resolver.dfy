/** `Model::calculate` as a whole, and its `Result` (`outputs/config/result.cpp`):
    the target state of every output and the rectangle that bounds every
    switched-on output. */
module Resolver {
  import opened Wrappers
  import opened Geometry
  import opened Anchors
  import opened ActionTypes
  import opened Actions
  import opened MetaHeads
  import opened TargetStates
  import opened PendingStates
  import opened Replay
  import opened HorizontalChain
  import opened Placement
  import Text
  import Seqs

  /** `Result`: the global space and the output states by identifier; a state
      may be null. */
  datatype CalcResult = CalcResult(globalSpace: Rect, outputStates: Pending)

  /** `mirrorActions`: each output's last mirroring target. */
  function MirrorMap(store: seq<Action>): (m: map<string, string>)
    ensures forall k :: k in m <==> exists a :: a in store && a.kind == SetMirrorOf && a.serial == k
  {
    if store == [] then map[]
    else
      var last := store[|store| - 1];
      var m := MirrorMap(store[..|store| - 1]);
      assert forall a :: a in store <==> a in store[..|store| - 1] || a == last;
      if last.kind == SetMirrorOf then m[last.serial := last.relative] else m
  }

  /** `anchorMap`: each output's last anchoring relative. */
  function AnchorMap(store: seq<Action>): (m: map<string, string>)
    ensures forall k :: k in m <==> exists a :: a in store && a.kind == SetPositionAnchor && a.serial == k
  {
    if store == [] then map[]
    else
      var last := store[|store| - 1];
      var m := AnchorMap(store[..|store| - 1]);
      assert forall a :: a in store <==> a in store[..|store| - 1] || a == last;
      if last.kind == SetPositionAnchor then m[last.serial := last.relative] else m
  }

  /** The chain step of the layout. */
  ghost function ChainPlaced(p: Pending, store: seq<Action>): (r: (Pending, set<string>))
    ensures Extends(p, r.0) && AllEligiblePositioned(r.0, r.1)
  {
    var chain := BuildHorizontalChain(p, store);
    PlaceChainFrame(chain, p, 0, {});
    var r := PlaceChain(chain, p, 0, {});
    forall k | k in r.0 && Eligible(r.0[k])
      ensures k in r.1
    {
      ExtendsKeepsEligible(p, r.0, k);
    }
    r
  }

  lemma NullsExtend(p: Pending, q: Pending)
    requires OnlyNullsAdded(p, q)
    ensures Extends(p, q)
  {
  }

  /** The anchor step of the layout: after the chain it only adds null
      entries. */
  ghost function AnchorPlaced(p: Pending, store: seq<Action>): (r: (Pending, set<string>))
    ensures Extends(p, r.0) && OnlyNullsAdded(ChainPlaced(p, store).0, r.0)
  {
    var placed := ChainPlaced(p, store);
    AnchorLoopMovesNothing(AnchorMap(store), placed.0, placed.1);
    var r := AnchorLoop(AnchorMap(store), placed.0, placed.1);
    NullsExtend(placed.0, r.0);
    ExtendsTransitive(p, placed.0, r.0);
    r
  }

  /** The positioning done outside shim mode: the chain, the anchor loop, the
      mirror pass. */
  ghost function Layout(p: Pending, store: seq<Action>): (r: Pending)
    ensures Extends(p, r)
  {
    var mm := MirrorMap(store);
    var anchored := AnchorPlaced(p, store);
    var mirrorKeys := Text.SortedKeys(mm.Keys);
    MirrorPassFrame(mirrorKeys, mm, AnchorMap(store), anchored.0, anchored.1);
    ExtendsTransitive(p, anchored.0, MirrorPass(mirrorKeys, mm, AnchorMap(store), anchored.0, anchored.1));
    MirrorPass(mirrorKeys, mm, AnchorMap(store), anchored.0, anchored.1)
  }

  /** The rectangle an output covers. */
  function OutputRect(st: TargetState): (r: Rect)
    ensures r.x1 == st.position.x && r.y1 == st.position.y
    ensures RectWidth(r) == st.resultingDimensions.w && RectHeight(r) == st.resultingDimensions.h
  {
    RectAt(st.position, st.resultingDimensions)
  }

  predicate Enabled(p: Pending, k: string) {
    Get(p, k).Some? && Get(p, k).value.on
  }

  /** The bounding loop over the states in key order: the first switched-on
      output's rectangle, united with each later one; `None` while no output
      has been seen. */
  function Bounds(keys: seq<string>, p: Pending): (r: Option<Rect>)
    ensures r.Some? <==> exists k :: k in keys && Enabled(p, k)
    decreases |keys|
  {
    if keys == [] then None
    else
      var prev := Bounds(keys[..|keys| - 1], p);
      var k := keys[|keys| - 1];
      assert forall j :: j in keys <==> j in keys[..|keys| - 1] || j == k;
      if Enabled(p, k) then
        var rect := OutputRect(Get(p, k).value);
        Some(match prev case None => rect case Some(g) => United(g, rect))
      else prev
  }

  /** Every switched-on output among `keys` has a positive size. */
  predicate SizesPositive(keys: seq<string>, p: Pending) {
    forall k :: k in keys && Enabled(p, k) ==> Get(p, k).value.resultingDimensions.w > 0 && Get(p, k).value.resultingDimensions.h > 0
  }

  /** With positive sizes, the bounds contain every switched-on output and are
      contained in every rectangle that contains them all. */
  lemma {:induction false} BoundsAreTight(keys: seq<string>, p: Pending)
    requires SizesPositive(keys, p)
    ensures var b := Bounds(keys, p);
      b.Some? ==> && Proper(b.value)
                  && (forall k :: k in keys && Enabled(p, k) ==> Contains(b.value, OutputRect(Get(p, k).value)))
                  && (forall c :: (forall k :: k in keys && Enabled(p, k) ==> Contains(c, OutputRect(Get(p, k).value))) ==> Contains(c, b.value))
    decreases |keys|
  {
    if keys != [] {
      var init := keys[..|keys| - 1];
      var k := keys[|keys| - 1];
      assert forall j :: j in keys <==> j in init || j == k;
      assert SizesPositive(init, p);
      BoundsAreTight(init, p);
    }
  }

  /** The global space: the bounds, or `QRect(0, 0, 0, 0)` when they are
      empty (no switched-on output, or degenerate sizes). */
  ghost function GlobalSpace(p: Pending): (r: Rect)
    ensures (forall k :: k in p ==> !Enabled(p, k)) ==> r == NullRect
    ensures !RectIsEmpty(r) || r == NullRect
  {
    var keys := Text.SortedKeys(p.Keys);
    var g := match Bounds(keys, p) case None => NullRect case Some(g) => g;
    if !RectIsEmpty(g) then g else NullRect
  }

  /** The states after seeding, replay and sizing, before any placement. */
  ghost function Prepared(heads: seq<MetaHead>, store: seq<Action>): (p: Pending)
    ensures forall i :: 0 <= i < |heads| ==> Identifier(heads[i]) in p && p[Identifier(heads[i])].Some?
    ensures AllExclusive(p)
  {
    var seeded := Seed(heads);
    ReplayKeepsShape(seeded, store);
    UpdateAll(ReplayActions(seeded, store))
  }

  /** `Model::calculate`. The heads are the output manager's heads after each
      has been asked for its identifier; `shim` is the shim-mode switch. */
  ghost function Calculate(heads: seq<MetaHead>, store: seq<Action>, shim: bool): (r: CalcResult)
    ensures Extends(Prepared(heads, store), r.outputStates)
    ensures shim ==> r.outputStates == Prepared(heads, store)
    ensures r.globalSpace == GlobalSpace(r.outputStates)
  {
    var p := Prepared(heads, store);
    var placed := if shim then p else Layout(p, store);
    CalcResult(GlobalSpace(placed), placed)
  }

  /** Every head has a state, so `apply` never stops at its validation loop
      right after a calculation. */
  lemma CalculateCoversHeads(heads: seq<MetaHead>, store: seq<Action>, shim: bool)
    ensures forall i :: 0 <= i < |heads| ==> Identifier(heads[i]) in Calculate(heads, store, shim).outputStates
    ensures forall i :: 0 <= i < |heads| ==> Calculate(heads, store, shim).outputStates[Identifier(heads[i])].Some?
  {
    var p := Prepared(heads, store);
    var r := Calculate(heads, store, shim).outputStates;
    forall i | 0 <= i < |heads|
      ensures Identifier(heads[i]) in r && r[Identifier(heads[i])].Some?
    {
      assert Identifier(heads[i]) in p;
    }
  }

  /** Placement changes only positions, so every state still mirrors or
      anchors, but not both. */
  lemma CalculateKeepsExclusive(heads: seq<MetaHead>, store: seq<Action>, shim: bool)
    ensures AllExclusive(Calculate(heads, store, shim).outputStates)
  {
    ExtendsKeepsExclusive(Prepared(heads, store), Calculate(heads, store, shim).outputStates);
  }

  lemma ChainPlacesEligible(p: Pending, store: seq<Action>, i: nat)
    requires i < |BuildHorizontalChain(p, store)|
    requires var k := BuildHorizontalChain(p, store)[i]; k in p && Eligible(p[k])
    ensures var chain := BuildHorizontalChain(p, store);
      ChainPlaced(p, store).0[chain[i]] == Some(p[chain[i]].value.(position := Point(ChainWidth(chain[..i], p), 0)))
  {
    PlaceChainFromOrigin(BuildHorizontalChain(p, store), p, i);
    ChainPlacedUnfold(p, store);
  }

  lemma ChainPlacedUnfold(p: Pending, store: seq<Action>)
    ensures ChainPlaced(p, store) == PlaceChain(BuildHorizontalChain(p, store), p, 0, {})
  {
  }

  /** The anchor and mirror passes leave an eligible output where the chain
      put it. */
  lemma LaterPassesKeep(p: Pending, store: seq<Action>, k: string)
    requires k in p && Eligible(p[k])
    ensures k in ChainPlaced(p, store).0 && Layout(p, store)[k] == ChainPlaced(p, store).0[k]
  {
    var placed := ChainPlaced(p, store);
    ExtendsKeepsEligible(p, placed.0, k);
    var anchored := AnchorPlaced(p, store);
    assert anchored.0[k] == placed.0[k];
    var mm := MirrorMap(store);
    var mirrorKeys := Text.SortedKeys(mm.Keys);
    MirrorPassFrame(mirrorKeys, mm, AnchorMap(store), anchored.0, anchored.1);
  }

  /** The layout puts an eligible output where the chain put it. */
  lemma LayoutPlacesChain(p: Pending, store: seq<Action>, k: string)
    requires k in p && Eligible(p[k])
    ensures var chain := BuildHorizontalChain(p, store);
      exists i :: 0 <= i < |chain| && chain[i] == k
        && Layout(p, store)[k] == Some(p[k].value.(position := Point(ChainWidth(chain[..i], p), 0)))
  {
    var chain := BuildHorizontalChain(p, store);
    assert k in chain;
    var i :| 0 <= i < |chain| && chain[i] == k;
    ChainPlacesEligible(p, store, i);
    LaterPassesKeep(p, store, k);
  }

  /** Outside shim mode, every switched-on output that does not mirror lies on
      the x axis, to the right of the eligible outputs before it on the
      horizontal chain and flush against them: its x is their total width.
      In particular, no anchor moves such an output. */
  lemma CalculateLaysOutChain(heads: seq<MetaHead>, store: seq<Action>, k: string)
    requires var p := Prepared(heads, store); k in p && Eligible(p[k])
    ensures var p := Prepared(heads, store);
      var chain := BuildHorizontalChain(p, store);
      exists i :: 0 <= i < |chain| && chain[i] == k
        && Calculate(heads, store, false).outputStates[k] == Some(p[k].value.(position := Point(ChainWidth(chain[..i], p), 0)))
  {
    LayoutPlacesChain(Prepared(heads, store), store, k);
  }

  /** With positive sizes, the global space contains every switched-on output
      and is the smallest rectangle that does. */
  lemma GlobalSpaceBoundsOutputs(p: Pending)
    requires SizesPositive(Text.SortedKeys(p.Keys), p)
    ensures forall k :: k in p && Enabled(p, k) ==> Contains(GlobalSpace(p), OutputRect(p[k].value))
    ensures (exists k :: k in p && Enabled(p, k)) ==>
      forall c :: (forall k :: k in p && Enabled(p, k) ==> Contains(c, OutputRect(p[k].value))) ==> Contains(c, GlobalSpace(p))
  {
    var keys := Text.SortedKeys(p.Keys);
    BoundsAreTight(keys, p);
    var b := Bounds(keys, p);
    if exists k :: k in p && Enabled(p, k) {
      var k :| k in p && Enabled(p, k);
      assert k in keys;
      assert b.Some?;
      assert GlobalSpace(p) == b.value;
    } else {
      assert forall k :: k in p && Enabled(p, k) ==> false;
    }
  }

  // ---------------------------------------------------------------------------
  // Result::toVariantMap

  /** One output's entry in the serialised result. */
  datatype OutputReport = OutputReport(
    on: bool,
    dimensions: Size,
    refresh: uint64,
    horizontalAnchor: string,
    verticalAnchor: string,
    position: Point,
    primary: bool,
    scale: real,
    transform: uint8,
    resultingDimensions: Size,
    adaptiveSync: uint32)

  /** The serialised result: the global space as x, y, width, height, and the
      outputs by identifier. */
  datatype Report = Report(x: int, y: int, width: int, height: int, outputs: map<string, OutputReport>)

  function Serialise(st: TargetState): (o: OutputReport)
    ensures HorizontalFromString(o.horizontalAnchor) == HNone
    ensures VerticalFromString(o.verticalAnchor) == st.vAnchor
    ensures o.transform == Uint8Of(st.transform)
    ensures o.on == st.on && o.position == st.position && o.resultingDimensions == st.resultingDimensions
  {
    HorizontalRoundTripLosesAnchor(st.hAnchor);
    VerticalRoundTrip(st.vAnchor);
    OutputReport(st.on, st.dimensions, st.refresh, HorizontalToString(st.hAnchor), VerticalToString(st.vAnchor),
                 st.position, st.primary, st.scale, Uint8Of(st.transform), st.resultingDimensions, st.adaptiveSync)
  }

  /** `Result::toVariantMap`. A null state would be dereferenced: the model
      yields `None` then. */
  function ToVariantMap(r: CalcResult): (m: Option<Report>)
    ensures m.Some? <==> forall k :: k in r.outputStates ==> r.outputStates[k].Some?
    ensures m.Some? ==> m.value.outputs.Keys == r.outputStates.Keys
    ensures m.Some? ==> forall k :: k in r.outputStates ==> m.value.outputs[k] == Serialise(r.outputStates[k].value)
    ensures m.Some? ==> RectAt(Point(m.value.x, m.value.y), Size(m.value.width, m.value.height)) == r.globalSpace
  {
    if forall k :: k in r.outputStates ==> r.outputStates[k].Some? then
      var g := r.globalSpace;
      Some(Report(g.x1, g.y1, RectWidth(g), RectHeight(g),
                  map k | k in r.outputStates :: Serialise(r.outputStates[k].value)))
    else None
  }
}
