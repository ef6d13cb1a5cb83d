/** The positioning half of `Model::calculate` (outside shim mode): the
    horizontal chain is laid out edge to edge along the x axis, anchored
    outputs are placed next to their relatives, and mirroring outputs take the
    position of the output they mirror. */
module Placement {
  import opened Wrappers
  import opened Geometry
  import opened Anchors
  import opened TargetStates
  import opened PendingStates
  import Text
  import Seqs

  /** `Model::calculateAnchoredPosition`. The source's comments for `Left`
      and `Right` describe outer placement (edge to opposite edge), but the
      code aligns the same edges; the model follows the code. */
  function CalculateAnchoredPosition(out: Option<TargetState>, rel: Option<TargetState>): (r: Point)
    ensures out.None? || rel.None? ==> r == Point(0, 0)
    ensures out.Some? && rel.Some? ==>
      var o := out.value;
      var q := rel.value.position;
      var ow := o.resultingDimensions.w;
      var oh := o.resultingDimensions.h;
      var qw := rel.value.resultingDimensions.w;
      var qh := rel.value.resultingDimensions.h;
      && (o.hAnchor == Left ==> r.x == q.x)
      && (o.hAnchor == Right ==> r.x + ow == q.x + qw)
      && (o.hAnchor == Center ==> -1 <= (2 * r.x + ow) - (2 * q.x + qw) <= 1)
      && (o.hAnchor == HNone && IsMirroring(o) ==> r.x == q.x)
      && (o.hAnchor == HNone && !IsMirroring(o) ==> r.x == q.x + qw)
      && (o.vAnchor == Above ==> r.y + oh == q.y)
      && (o.vAnchor == Top ==> r.y == q.y)
      && (o.vAnchor == Middle ==> -1 <= (2 * r.y + oh) - (2 * q.y + qh) <= 1)
      && (o.vAnchor == Bottom ==> r.y + oh == q.y + qh)
      && (o.vAnchor == Below ==> r.y == q.y + qh)
      && (o.vAnchor == VNone ==> r.y == q.y)
      // centring halves the difference of the sizes rounding toward zero, as C++ `/` does
      && (o.hAnchor == Center && qw >= ow ==> r.x - q.x == (qw - ow) / 2)
      && (o.hAnchor == Center && qw < ow ==> q.x - r.x == (ow - qw) / 2)
      && (o.vAnchor == Middle && qh >= oh ==> r.y - q.y == (qh - oh) / 2)
      && (o.vAnchor == Middle && qh < oh ==> q.y - r.y == (oh - qh) / 2)
  {
    match (out, rel)
    case (Some(o), Some(q)) =>
      var rp := q.position;
      var rd := q.resultingDimensions;
      var od := o.resultingDimensions;
      var x := match o.hAnchor
        case Left => rp.x
        case Right => rp.x + rd.w - od.w
        case Center => rp.x + TruncDiv(rd.w - od.w, 2)
        case HNone => if IsMirroring(o) then rp.x else rp.x + rd.w;
      var y := match o.vAnchor
        case Above => rp.y - od.h
        case Top => rp.y
        case Middle => rp.y + TruncDiv(rd.h - od.h, 2)
        case Bottom => rp.y + rd.h - od.h
        case Below => rp.y + rd.h
        case VNone => rp.y;
      Point(x, y)
    case _ => Point(0, 0)
  }

  /** A mirroring output without anchors takes exactly the position of the
      output it mirrors. */
  lemma MirrorSharesPosition(o: TargetState, q: TargetState)
    requires IsMirroring(o) && o.hAnchor == HNone && o.vAnchor == VNone
    ensures CalculateAnchoredPosition(Some(o), Some(q)) == q.position
  {
  }

  // ---------------------------------------------------------------------------
  // The horizontal chain

  /** The total width of the eligible outputs among `ks`. */
  function ChainWidth(ks: seq<string>, p: Pending): int
    decreases |ks|
  {
    if ks == [] then 0
    else (if Eligible(Get(p, ks[0])) then Get(p, ks[0]).value.resultingDimensions.w else 0) + ChainWidth(ks[1..], p)
  }

  /** The loop over the chain: every eligible output is put at `(x, 0)` and
      `x` advances by its width. Looking a name up inserts a null entry for it
      when the map does not hold it. */
  function PlaceChain(chain: seq<string>, p: Pending, x: int, positioned: set<string>): (r: (Pending, set<string>))
    decreases |chain|
  {
    if chain == [] then (p, positioned)
    else
      var k := chain[0];
      var p1 := Touch(p, k);
      var st := Get(p1, k);
      if Eligible(st) then
        PlaceChain(chain[1..], p1[k := Some(TargetStates.SetPosition(st.value, Point(x, 0)))],
                   x + st.value.resultingDimensions.w, positioned + {k})
      else PlaceChain(chain[1..], p1, x, positioned)
  }

  lemma WidthFrame(ks: seq<string>, p: Pending, q: Pending)
    requires forall k :: k in ks ==> Get(p, k) == Get(q, k)
    ensures ChainWidth(ks, p) == ChainWidth(ks, q)
    decreases |ks|
  {
    if ks != [] {
      WidthFrame(ks[1..], p, q);
    }
  }

  /** Laying out the chain only sets positions and adds null entries; the
      outputs it positions are exactly the eligible ones on the chain. */
  lemma PlaceChainFrame(chain: seq<string>, p: Pending, x: int, positioned: set<string>)
    ensures var r := PlaceChain(chain, p, x, positioned);
      && Extends(p, r.0)
      && r.0.Keys == p.Keys + (set k | k in chain)
      && (forall k :: k in p && k !in chain ==> r.0[k] == p[k])
      && (forall k :: k in r.1 <==> k in positioned || (k in chain && Eligible(Get(p, k))))
  {
    PlaceChainExtends(chain, p, x, positioned);
    PlaceChainPositioned(chain, p, x, positioned);
  }

  /** One step of the chain loop: the map after the first name. */
  function ChainStep(chain: seq<string>, p: Pending, x: int): (q: Pending)
    requires chain != []
    ensures Extends(p, q)
    ensures q.Keys == p.Keys + {chain[0]}
    ensures forall k :: k in p && k != chain[0] ==> q[k] == p[k]
  {
    var k := chain[0];
    var p1 := Touch(p, k);
    var st := Get(p1, k);
    if Eligible(st) then p1[k := Some(TargetStates.SetPosition(st.value, Point(x, 0)))] else p1
  }

  lemma {:induction false} PlaceChainExtends(chain: seq<string>, p: Pending, x: int, positioned: set<string>)
    ensures var r := PlaceChain(chain, p, x, positioned);
      && Extends(p, r.0)
      && r.0.Keys == p.Keys + (set k | k in chain)
      && (forall k :: k in p && k !in chain ==> r.0[k] == p[k])
    decreases |chain|
  {
    if chain != [] {
      var k := chain[0];
      var st := Get(Touch(p, k), k);
      var p2 := ChainStep(chain, p, x);
      var x2 := if Eligible(st) then x + st.value.resultingDimensions.w else x;
      var pos2 := if Eligible(st) then positioned + {k} else positioned;
      assert PlaceChain(chain, p, x, positioned) == PlaceChain(chain[1..], p2, x2, pos2);
      PlaceChainExtends(chain[1..], p2, x2, pos2);
      ExtendsTransitive(p, p2, PlaceChain(chain[1..], p2, x2, pos2).0);
      assert (set j | j in chain) == {k} + (set j | j in chain[1..]);
    }
  }

  lemma {:induction false} PlaceChainPositioned(chain: seq<string>, p: Pending, x: int, positioned: set<string>)
    ensures var r := PlaceChain(chain, p, x, positioned);
      forall k :: k in r.1 <==> k in positioned || (k in chain && Eligible(Get(p, k)))
    decreases |chain|
  {
    if chain != [] {
      var k := chain[0];
      var st := Get(Touch(p, k), k);
      var p2 := ChainStep(chain, p, x);
      var x2 := if Eligible(st) then x + st.value.resultingDimensions.w else x;
      var pos2 := if Eligible(st) then positioned + {k} else positioned;
      assert PlaceChain(chain, p, x, positioned) == PlaceChain(chain[1..], p2, x2, pos2);
      PlaceChainPositioned(chain[1..], p2, x2, pos2);
      forall j | j in chain[1..]
        ensures Eligible(Get(p2, j)) <==> Eligible(Get(p, j))
      {
        ExtendsKeepsEligible(p, p2, j);
      }
    }
  }

  /** The chain as the resolver lays it out, from the origin. */
  lemma PlaceChainFromOrigin(chain: seq<string>, p: Pending, i: nat)
    requires Seqs.Distinct(chain) && i < |chain|
    requires chain[i] in p && Eligible(p[chain[i]])
    ensures var r := PlaceChain(chain, p, 0, {}).0;
      chain[i] in r && r[chain[i]] == Some(p[chain[i]].value.(position := Point(ChainWidth(chain[..i], p), 0)))
  {
    PlaceChainPositions(chain, p, 0, {}, i);
  }

  /** On a chain without repeated names, every eligible output ends up at
      `(x + w, 0)`, where `w` is the total width of the eligible outputs
      before it on the chain. */
  lemma {:induction false} PlaceChainPositions(chain: seq<string>, p: Pending, x: int, positioned: set<string>, i: nat)
    requires Seqs.Distinct(chain) && i < |chain|
    requires Eligible(Get(p, chain[i]))
    ensures var r := PlaceChain(chain, p, x, positioned).0;
      chain[i] in r && r[chain[i]] == Some(Get(p, chain[i]).value.(position := Point(x + ChainWidth(chain[..i], p), 0)))
    decreases |chain|
  {
    var k := chain[0];
    var p1 := Touch(p, k);
    var st := Get(p1, k);
    var p2 := if Eligible(st) then p1[k := Some(TargetStates.SetPosition(st.value, Point(x, 0)))] else p1;
    var x2 := if Eligible(st) then x + st.value.resultingDimensions.w else x;
    var pos2 := if Eligible(st) then positioned + {k} else positioned;
    assert PlaceChain(chain, p, x, positioned) == PlaceChain(chain[1..], p2, x2, pos2);
    Seqs.DistinctTail(chain);
    if i == 0 {
      PlaceChainFrame(chain[1..], p2, x2, pos2);
      assert chain[..0] == [];
    } else {
      var j := i - 1;
      assert chain[1..][j] == chain[i];
      assert chain[i] != k;
      assert Get(p2, chain[i]) == Get(p, chain[i]);
      PlaceChainPositions(chain[1..], p2, x2, pos2, j);
      assert chain[..i][1..] == chain[1..][..j];
      assert chain[..i][0] == k;
      forall m | m in chain[1..][..j]
        ensures Get(p2, m) == Get(p, m)
      {
        assert m in chain[1..];
      }
      WidthFrame(chain[1..][..j], p2, p);
    }
  }

  // ---------------------------------------------------------------------------
  // The anchor pass

  /** Every output with a known, switched-on, non-mirroring state has been
      positioned. */
  predicate AllEligiblePositioned(p: Pending, positioned: set<string>) {
    forall k :: k in p && Eligible(p[k]) ==> k in positioned
  }

  /** `p` with only null entries added. */
  predicate OnlyNullsAdded(p: Pending, q: Pending) {
    && p.Keys <= q.Keys
    && (forall k :: k in p ==> q[k] == p[k])
    && (forall k :: k in q && k !in p ==> q[k].None?)
  }

  /** One sweep of the `for` loop over the anchored outputs, in key order: an
      output not yet positioned whose relative is, and that is known, switched
      on and not mirroring, is placed next to its relative. The returned flag
      says whether anything was placed. */
  function AnchorSweep(keys: seq<string>, am: map<string, string>, p: Pending, positioned: set<string>): (r: (Pending, set<string>, bool))
    requires forall k :: k in keys ==> k in am
    ensures positioned <= r.1 && r.1 - positioned <= set k | k in keys
    ensures r.2 <==> r.1 != positioned
    decreases |keys|
  {
    if keys == [] then (p, positioned, false)
    else
      var s := keys[0];
      var rel := am[s];
      var step: (Pending, set<string>, bool) :=
        if s in positioned || rel !in positioned then (p, positioned, false)
        else
          var p1 := Touch(Touch(p, s), rel);
          var out := Get(p1, s);
          var relState := Get(p1, rel);
          if out.None? || relState.None? || !out.value.on || IsMirroring(out.value) then (p1, positioned, false)
          else (p1[s := Some(TargetStates.SetPosition(out.value, CalculateAnchoredPosition(out, relState)))], positioned + {s}, true);
      var rest := AnchorSweep(keys[1..], am, step.0, step.1);
      assert (set k | k in keys) == {s} + (set k | k in keys[1..]);
      (rest.0, rest.1, step.2 || rest.2)
  }

  /** The `while` loop around the sweep: it runs while the previous sweep
      placed something and fewer outputs are positioned than the map holds. */
  ghost function AnchorLoop(am: map<string, string>, p: Pending, positioned: set<string>): (r: (Pending, set<string>))
    decreases am.Keys - positioned
  {
    if |positioned| >= |p.Keys| then (p, positioned)
    else
      var keys := Text.SortedKeys(am.Keys);
      var sweep := AnchorSweep(keys, am, p, positioned);
      if !sweep.2 then (sweep.0, sweep.1)
      else
        assert sweep.1 - positioned <= am.Keys;
        AnchorLoop(am, sweep.0, sweep.1)
  }

  /** Once every eligible output is positioned, a sweep places nothing: it only
      adds null entries for the names it looks up. */
  lemma {:induction false} AnchorSweepPlacesNothing(keys: seq<string>, am: map<string, string>, p: Pending, positioned: set<string>)
    requires forall k :: k in keys ==> k in am
    requires AllEligiblePositioned(p, positioned)
    ensures var r := AnchorSweep(keys, am, p, positioned);
      OnlyNullsAdded(p, r.0) && r.1 == positioned && !r.2
    decreases |keys|
  {
    if keys != [] {
      var s := keys[0];
      var rel := am[s];
      if s in positioned || rel !in positioned {
        AnchorSweepPlacesNothing(keys[1..], am, p, positioned);
      } else {
        var p1 := Touch(Touch(p, s), rel);
        assert OnlyNullsAdded(p, p1);
        assert AllEligiblePositioned(p1, positioned);
        AnchorSweepPlacesNothing(keys[1..], am, p1, positioned);
      }
    }
  }

  /** After the chain has positioned every eligible output, the anchor pass
      moves nothing. */
  lemma AnchorLoopMovesNothing(am: map<string, string>, p: Pending, positioned: set<string>)
    requires AllEligiblePositioned(p, positioned)
    ensures OnlyNullsAdded(p, AnchorLoop(am, p, positioned).0)
    ensures AnchorLoop(am, p, positioned).1 == positioned
  {
    if |positioned| < |p.Keys| {
      AnchorSweepPlacesNothing(Text.SortedKeys(am.Keys), am, p, positioned);
    }
  }

  // ---------------------------------------------------------------------------
  // The mirror pass

  /** One step of the mirror loop, for output `s` mirroring `m`: a known,
      switched-on, mirroring output that is neither positioned nor anchored
      takes the position computed against the output it mirrors. Looking the
      two names up inserts null entries for them. Only the position of `s`
      can change. */
  function MirrorStep(s: string, m: string, am: map<string, string>, p: Pending, positioned: set<string>): (q: Pending)
    ensures q.Keys == p.Keys + {s, m}
    ensures forall k :: k != s ==> Get(q, k) == Get(p, k)
    ensures forall k :: k in p && k != s ==> q[k] == p[k]
  {
    var p1 := Touch(Touch(p, s), m);
    var out := Get(p1, s);
    var mirrored := Get(p1, m);
    if out.Some? && mirrored.Some? && out.value.on && IsMirroring(out.value) && s !in positioned && s !in am
    then p1[s := Some(TargetStates.SetPosition(out.value, CalculateAnchoredPosition(out, mirrored)))]
    else p1
  }

  /** A mirror step moves at most the one output, and only a mirroring one. */
  lemma MirrorStepExtends(s: string, m: string, am: map<string, string>, p: Pending, positioned: set<string>)
    ensures var q := MirrorStep(s, m, am, p, positioned);
      && Extends(p, q)
      && forall k :: k in p && (p[k].None? || !IsMirroring(p[k].value)) ==> q[k] == p[k]
  {
    var p1 := Touch(Touch(p, s), m);
    var out := Get(p1, s);
    var q := MirrorStep(s, m, am, p, positioned);
    if s in p {
      assert Get(p, s) == p[s] == out;
      assert q[s].None? == p[s].None?;
    }
  }

  /** The loop over the mirroring actions' outputs in key order. (The source
      also records each moved output as positioned; no later step of the loop
      can meet the same output again, so that record is not kept here.) */
  function MirrorPass(keys: seq<string>, mm: map<string, string>, am: map<string, string>, p: Pending, positioned: set<string>): (r: Pending)
    requires forall k :: k in keys ==> k in mm
    ensures p.Keys <= r.Keys
    decreases |keys|
  {
    if keys == [] then p
    else MirrorPass(keys[1..], mm, am, MirrorStep(keys[0], mm[keys[0]], am, p, positioned), positioned)
  }

  /** The mirror pass changes only the positions of mirroring outputs. */
  lemma {:induction false} MirrorPassFrame(keys: seq<string>, mm: map<string, string>, am: map<string, string>, p: Pending, positioned: set<string>)
    requires forall k :: k in keys ==> k in mm
    ensures var r := MirrorPass(keys, mm, am, p, positioned);
      && Extends(p, r)
      && (forall k :: k in p && (p[k].None? || !IsMirroring(p[k].value)) ==> r[k] == p[k])
      && (forall k :: k in p && k !in keys ==> r[k] == p[k])
    decreases |keys|
  {
    if keys != [] {
      var p2 := MirrorStep(keys[0], mm[keys[0]], am, p, positioned);
      MirrorStepExtends(keys[0], mm[keys[0]], am, p, positioned);
      MirrorPassFrame(keys[1..], mm, am, p2, positioned);
      ExtendsTransitive(p, p2, MirrorPass(keys[1..], mm, am, p2, positioned));
      forall k | k in p && (p[k].None? || !IsMirroring(p[k].value))
        ensures p2[k].None? || !IsMirroring(p2[k].value)
      {
      }
    }
  }

  /** A mirroring output without anchors, whose mirrored output mirrors
      nothing in the queue, ends at the mirrored output's position. */
  lemma {:induction false} MirrorPassCopiesPosition(keys: seq<string>, mm: map<string, string>, am: map<string, string>, p: Pending, positioned: set<string>, i: nat)
    requires forall k :: k in keys ==> k in mm
    requires Seqs.Distinct(keys) && i < |keys|
    requires var s := keys[i];
      && Get(p, s).Some? && Get(p, s).value.on && IsMirroring(Get(p, s).value)
      && Get(p, s).value.hAnchor == HNone && Get(p, s).value.vAnchor == VNone
      && s !in positioned && s !in am
      && Get(p, mm[s]).Some? && mm[s] !in keys
    ensures var r := MirrorPass(keys, mm, am, p, positioned);
      keys[i] in r && r[keys[i]].Some? && r[keys[i]].value.position == Get(p, mm[keys[i]]).value.position
    decreases |keys|
  {
    var s := keys[0];
    var p2 := MirrorStep(s, mm[s], am, p, positioned);
    Seqs.DistinctTail(keys);
    if i == 0 {
      MirrorSharesPosition(Get(p, s).value, Get(p, mm[s]).value);
      assert mm[s] != s;
      MirrorPassFrame(keys[1..], mm, am, p2, positioned);
    } else {
      var t := keys[i];
      assert keys[1..][i - 1] == t;
      assert t != s;
      assert mm[t] != s;
      MirrorPassCopiesPosition(keys[1..], mm, am, p2, positioned, i - 1);
    }
  }
}
