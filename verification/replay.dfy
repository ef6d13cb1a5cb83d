/** The first half of `Model::calculate`: one target state per output, seeded
    from the output's current properties, then every queued action replayed on
    the state of its output, then the resulting size of every state derived. */
module Replay {
  import opened Wrappers
  import opened Geometry
  import opened ActionTypes
  import opened Actions
  import opened MetaModes
  import opened MetaHeads
  import opened TargetStates
  import opened PendingStates
  import Text
  import Seqs

  /** The state seeded for a head: named by the head's identifier and holding
      the head's current properties. */
  function SeedState(h: MetaHead): (st: TargetState)
    ensures st.serial == Identifier(h) && Exclusive(st) && !IsMirroring(st)
    ensures st.on == h.enabled && st.position == h.position && st.scale == h.scale
    ensures st.transform == Uint8Of(h.transform) && st.adaptiveSync == Uint32Of(h.adaptiveSync)
    ensures st.relative == h.relativeOutput && st.hAnchor == h.hAnchor && st.vAnchor == h.vAnchor
    ensures st.primary == h.primary && st.resultingDimensions == InvalidSize
    ensures st.dimensions == (match h.currentMode case Some(m) => GetSize(m).GetOr(Size(0, 0)) case None => Size(0, 0))
    ensures st.refresh == (match h.currentMode case Some(m) => GetRefresh(m).GetOr(0) case None => 0)
  {
    SeededStateIsExclusive(Identifier(h), Some(h));
    SetDefaultValues(NewTargetState(Identifier(h)), Some(h))
  }

  /** The adaptive sync state the compositor announced for a head is the one
      its seeded state carries: the detour through `int` loses nothing. */
  lemma SeedKeepsAnnouncedAdaptiveSync(h: MetaHead, v: uint32, src: IdSource)
    ensures SeedState(MetaHeads.SetProperty(h, AdaptiveSyncProperty(v), src).0).adaptiveSync == v
  {
    SetPropertyStoresSettings(h, AdaptiveSyncProperty(v), src);
    Uint32ThroughInt32(v);
  }

  /** The identifiers of a list of heads. */
  function IdsOf(heads: seq<MetaHead>): (r: set<string>)
    ensures forall i :: 0 <= i < |heads| ==> Identifier(heads[i]) in r
    ensures forall k :: k in r ==> exists i :: 0 <= i < |heads| && Identifier(heads[i]) == k
  {
    if heads == [] then {}
    else
      var init := heads[..|heads| - 1];
      var r := IdsOf(init) + {Identifier(heads[|heads| - 1])};
      assert forall i :: 0 <= i < |init| ==> heads[i] == init[i];
      r
  }

  /** The seeding loop: one entry per head, keyed by its identifier; a later
      head with the same identifier replaces an earlier one. */
  function Seed(heads: seq<MetaHead>): (p: Pending)
    ensures p.Keys == IdsOf(heads)
    ensures forall k :: k in p ==> p[k].Some?
    ensures AllExclusive(p)
  {
    if heads == [] then map[]
    else
      var last := heads[|heads| - 1];
      var before := Seed(heads[..|heads| - 1]);
      before[Identifier(last) := Some(SeedState(last))]
  }

  /** The seeded state of an output is that of the last head with its
      identifier. */
  lemma {:induction false} SeedLastWins(heads: seq<MetaHead>, i: nat)
    requires i < |heads|
    requires forall j :: i < j < |heads| ==> Identifier(heads[j]) != Identifier(heads[i])
    ensures Seed(heads)[Identifier(heads[i])] == Some(SeedState(heads[i]))
  {
    if i < |heads| - 1 {
      var init := heads[..|heads| - 1];
      assert forall j :: i < j < |init| ==> init[j] == heads[j];
      SeedLastWins(init, i);
    }
  }

  /** One case of the replay switch. A gamma action changes nothing. */
  function ApplyAction(st: TargetState, a: Action): (r: TargetState)
    ensures r.serial == st.serial && r.resultingDimensions == st.resultingDimensions
    ensures Exclusive(st) ==> Exclusive(r)
    ensures a.kind == SetGamma ==> r == st
    ensures r.on == (if a.kind == SetOnOff then a.on else st.on)
    ensures r.dimensions == (if a.kind == SetMode then a.dimensions else st.dimensions)
    ensures r.refresh == (if a.kind == SetMode then a.refresh else st.refresh)
    ensures r.position == (if a.kind == SetAbsolutePosition then a.absolutePosition else st.position)
    ensures r.hAnchor == (if a.kind == SetPositionAnchor then a.hAnchor else st.hAnchor)
    ensures r.vAnchor == (if a.kind == SetPositionAnchor then a.vAnchor else st.vAnchor)
    ensures r.scale == (if a.kind == SetScale then a.scale else st.scale)
    ensures r.transform == (if a.kind == SetTransform then Uint8Of(a.transform) else st.transform)
    ensures r.adaptiveSync == (if a.kind == SetAdaptiveSync then a.adaptiveSync else st.adaptiveSync)
    ensures r.primary == (a.kind == SetPrimary || st.primary)
    ensures r.relative == (if a.kind == SetPositionAnchor then a.relative
                           else if a.kind == SetMirrorOf && a.relative != "" then "" else st.relative)
    ensures r.mirrorOf == (if a.kind == SetMirrorOf then a.relative
                           else if a.kind == SetPositionAnchor && a.relative != "" then "" else st.mirrorOf)
  {
    match a.kind
    case SetOnOff => TargetStates.SetOn(st, a.on)
    case SetMode => TargetStates.SetRefresh(TargetStates.SetDimensions(st, a.dimensions), a.refresh)
    case SetScale => TargetStates.SetScale(st, a.scale)
    case SetTransform => TargetStates.SetTransform(st, a.transform)
    case SetAdaptiveSync => TargetStates.SetAdaptiveSync(st, a.adaptiveSync)
    case SetPrimary => TargetStates.SetPrimary(st, true)
    case SetPositionAnchor => TargetStates.SetVerticalAnchor(TargetStates.SetHorizontalAnchor(TargetStates.SetRelative(st, a.relative), a.hAnchor), a.vAnchor)
    case SetMirrorOf => TargetStates.SetMirrorOf(st, a.relative)
    case SetAbsolutePosition => TargetStates.SetPosition(st, a.absolutePosition)
    case SetGamma => st
  }

  /** The positions of the queue holding actions for `serial`, in
      increasing order. */
  function PositionsFor(store: seq<Action>, serial: string): (ix: seq<int>)
    ensures Seqs.Increasing(ix)
    ensures forall x :: x in ix <==> 0 <= x < |store| && store[x].serial == serial
  {
    if store == [] then []
    else
      var n := |store| - 1;
      var before := PositionsFor(store[..n], serial);
      assert forall k :: 0 <= k < |before| ==> before[k] in before;
      before + (if store[n].serial == serial then [n] else [])
  }

  /** The actions of one output, as the replay loop collects them: the queue
      with every action for another output deleted, in queue order. */
  function ActionsFor(store: seq<Action>, serial: string): (r: seq<Action>)
    ensures Seqs.SubseqAt(r, store, PositionsFor(store, serial))
    ensures forall i :: 0 <= i < |r| ==> r[i].serial == serial && r[i] in store
    ensures forall a :: a in store && a.serial == serial ==> a in r
  {
    if store == [] then []
    else
      var n := |store| - 1;
      var rest := ActionsFor(store[..n], serial);
      ActionsForStep(store, serial, rest);
      if store[n].serial == serial then rest + [store[n]] else rest
  }

  /** One step of the collection: the actions of all but the last queued
      action, with the last one added when it is for `serial`. */
  lemma ActionsForStep(store: seq<Action>, serial: string, rest: seq<Action>)
    requires store != []
    requires Seqs.SubseqAt(rest, store[..|store| - 1], PositionsFor(store[..|store| - 1], serial))
    requires forall a :: a in store[..|store| - 1] && a.serial == serial ==> a in rest
    ensures var n := |store| - 1;
      var r := if store[n].serial == serial then rest + [store[n]] else rest;
      && Seqs.SubseqAt(r, store, PositionsFor(store, serial))
      && (forall a :: a in store && a.serial == serial ==> a in r)
  {
    var n := |store| - 1;
    var ix := PositionsFor(store[..n], serial);
    assert PositionsFor(store, serial) == ix + (if store[n].serial == serial then [n] else []);
    forall k | 0 <= k < |ix|
      ensures ix[k] < n && rest[k] == store[ix[k]]
    {
      assert ix[k] in ix;
    }
    assert forall a :: a in store ==> a in store[..n] || a == store[n];
  }

  /** Every action applied in order. */
  function ApplyAll(st: TargetState, acts: seq<Action>): (r: TargetState)
    ensures r.serial == st.serial && r.resultingDimensions == st.resultingDimensions
    ensures Exclusive(st) ==> Exclusive(r)
  {
    if acts == [] then st
    else ApplyAction(ApplyAll(st, acts[..|acts| - 1]), acts[|acts| - 1])
  }

  /** The last action of a kind, if any: the reference for what replaying
      leaves in the field that kind sets. */
  function LastOfKind(acts: seq<Action>, kind: ActionType): (r: Option<Action>)
    ensures r.Some? ==> exists i :: 0 <= i < |acts| && acts[i] == r.value && r.value.kind == kind
                                    && forall j :: i < j < |acts| ==> acts[j].kind != kind
    ensures r.None? ==> forall a :: a in acts ==> a.kind != kind
  {
    if acts == [] then None
    else if acts[|acts| - 1].kind == kind then Some(acts[|acts| - 1])
    else
      var init := acts[..|acts| - 1];
      assert forall a :: a in acts ==> a in init || a == acts[|acts| - 1];
      assert forall j :: 0 <= j < |init| ==> init[j] == acts[j];
      LastOfKind(init, kind)
  }

  /** An action that decides what an output mirrors: a mirror action, or an
      anchoring action naming a relative output (which ends mirroring). */
  predicate SetsMirror(a: Action) {
    a.kind == SetMirrorOf || (a.kind == SetPositionAnchor && a.relative != "")
  }

  /** An action that decides an output's relative output: an anchoring
      action, or a mirror action naming an output (which drops the relative). */
  predicate SetsRelative(a: Action) {
    a.kind == SetPositionAnchor || (a.kind == SetMirrorOf && a.relative != "")
  }

  /** The last action satisfying `p`, if any. */
  function LastWhere(acts: seq<Action>, p: Action -> bool): (r: Option<Action>)
    ensures r.Some? ==> exists i :: 0 <= i < |acts| && acts[i] == r.value && p(r.value)
                                    && forall j :: i < j < |acts| ==> !p(acts[j])
    ensures r.None? ==> forall a :: a in acts ==> !p(a)
  {
    if acts == [] then None
    else if p(acts[|acts| - 1]) then Some(acts[|acts| - 1])
    else
      var init := acts[..|acts| - 1];
      assert forall a :: a in acts ==> a in init || a == acts[|acts| - 1];
      assert forall j :: 0 <= j < |init| ==> init[j] == acts[j];
      LastWhere(init, p)
  }

  /** Replaying a list of actions: the mirrored output is set by the last
      action deciding it (empty after an anchoring one), the relative output
      likewise; without such an action the seeded value stays. So an output
      mirrors after replay exactly when that last action mirrors a named
      output, or, with none, when it was seeded mirroring. */
  lemma {:induction false} ApplyAllLastLinkWins(st: TargetState, acts: seq<Action>)
    ensures var r := ApplyAll(st, acts);
      && r.mirrorOf == (match LastWhere(acts, SetsMirror)
                        case Some(a) => if a.kind == SetMirrorOf then a.relative else ""
                        case None => st.mirrorOf)
      && r.relative == (match LastWhere(acts, SetsRelative)
                        case Some(a) => if a.kind == SetPositionAnchor then a.relative else ""
                        case None => st.relative)
      && (IsMirroring(r) <==> match LastWhere(acts, SetsMirror)
                              case Some(a) => a.kind == SetMirrorOf && a.relative != ""
                              case None => IsMirroring(st))
  {
    if acts != [] {
      ApplyAllLastLinkWins(st, acts[..|acts| - 1]);
    }
  }

  /** Replaying a list of actions: each field ends with the value of the last
      action that sets it, or keeps its seeded value. */
  lemma {:induction false} ApplyAllLastModeWins(st: TargetState, acts: seq<Action>)
    ensures var r := ApplyAll(st, acts);
      && r.on == (match LastOfKind(acts, SetOnOff) case Some(a) => a.on case None => st.on)
      && r.dimensions == (match LastOfKind(acts, SetMode) case Some(a) => a.dimensions case None => st.dimensions)
      && r.refresh == (match LastOfKind(acts, SetMode) case Some(a) => a.refresh case None => st.refresh)
  {
    if acts != [] {
      ApplyAllLastModeWins(st, acts[..|acts| - 1]);
    }
  }

  lemma {:induction false} ApplyAllLastPlacementWins(st: TargetState, acts: seq<Action>)
    ensures var r := ApplyAll(st, acts);
      && r.position == (match LastOfKind(acts, SetAbsolutePosition) case Some(a) => a.absolutePosition case None => st.position)
      && r.hAnchor == (match LastOfKind(acts, SetPositionAnchor) case Some(a) => a.hAnchor case None => st.hAnchor)
      && r.vAnchor == (match LastOfKind(acts, SetPositionAnchor) case Some(a) => a.vAnchor case None => st.vAnchor)
  {
    if acts != [] {
      ApplyAllLastPlacementWins(st, acts[..|acts| - 1]);
    }
  }

  lemma {:induction false} ApplyAllLastPropertyWins(st: TargetState, acts: seq<Action>)
    ensures var r := ApplyAll(st, acts);
      && r.scale == (match LastOfKind(acts, SetScale) case Some(a) => a.scale case None => st.scale)
      && r.transform == (match LastOfKind(acts, SetTransform) case Some(a) => Uint8Of(a.transform) case None => st.transform)
      && r.adaptiveSync == (match LastOfKind(acts, SetAdaptiveSync) case Some(a) => a.adaptiveSync case None => st.adaptiveSync)
      && r.primary == (LastOfKind(acts, SetPrimary).Some? || st.primary)
  {
    if acts != [] {
      ApplyAllLastPropertyWins(st, acts[..|acts| - 1]);
    }
  }

  /** The serials named by the queued actions. */
  function SerialsOf(store: seq<Action>): (r: set<string>)
    ensures forall s :: s in r <==> exists a :: a in store && a.serial == s
  {
    set a | a in store :: a.serial
  }

  /** The replay loop over the serials in the given order. A serial that has
      no state gets a null entry and is skipped. */
  function ReplayKeys(p: Pending, keys: seq<string>, store: seq<Action>): Pending
    decreases |keys|
  {
    if keys == [] then p
    else
      var s := keys[0];
      var p1 := Touch(p, s);
      var p2 := match p1[s]
        case None => p1
        case Some(st) => p1[s := Some(ApplyAll(st, ActionsFor(store, s)))];
      ReplayKeys(p2, keys[1..], store)
  }

  /** The state of `k` after the replay. */
  function Replayed(p: Pending, k: string, store: seq<Action>): Option<TargetState> {
    match Get(p, k)
    case None => None
    case Some(st) => Some(ApplyAll(st, ActionsFor(store, k)))
  }

  /** One step of the replay loop puts the serial's replayed state in place. */
  lemma ReplayStep(p: Pending, keys: seq<string>, store: seq<Action>)
    requires keys != []
    ensures ReplayKeys(p, keys, store) == ReplayKeys(p[keys[0] := Replayed(p, keys[0], store)], keys[1..], store)
  {
    var s := keys[0];
    var p1 := Touch(p, s);
    var p2 := match p1[s]
      case None => p1
      case Some(st) => p1[s := Some(ApplyAll(st, ActionsFor(store, s)))];
    assert p2 == p[s := Replayed(p, s, store)];
  }

  /** The replay adds a null entry for each serial without one and keeps
      every entry it does not visit. */
  lemma {:induction false} ReplayKeysDomain(p: Pending, keys: seq<string>, store: seq<Action>)
    ensures var r := ReplayKeys(p, keys, store);
      && r.Keys == p.Keys + (set k | k in keys)
      && (forall k :: k in p && k !in keys ==> r[k] == p[k])
    decreases |keys|
  {
    if keys != [] {
      var s := keys[0];
      ReplayStep(p, keys, store);
      ReplayKeysDomain(p[s := Replayed(p, s, store)], keys[1..], store);
      assert (set k | k in keys) == {s} + (set k | k in keys[1..]);
    }
  }

  /** Each visited serial ends with its own actions applied to its state. */
  lemma {:induction false} ReplayKeysValues(p: Pending, keys: seq<string>, store: seq<Action>)
    requires Seqs.Distinct(keys)
    ensures var r := ReplayKeys(p, keys, store);
      forall k :: k in keys ==> k in r && r[k] == Replayed(p, k, store)
    decreases |keys|
  {
    if keys != [] {
      var s := keys[0];
      var p2 := p[s := Replayed(p, s, store)];
      ReplayStep(p, keys, store);
      Seqs.DistinctTail(keys);
      ReplayKeysValues(p2, keys[1..], store);
      ReplayKeysDomain(p2, keys[1..], store);
      forall k | k in keys[1..]
        ensures Replayed(p2, k, store) == Replayed(p, k, store)
      {
        assert Get(p2, k) == Get(p, k);
      }
    }
  }

  lemma ReplayKeysEffect(p: Pending, keys: seq<string>, store: seq<Action>)
    requires Seqs.Distinct(keys)
    ensures var r := ReplayKeys(p, keys, store);
      && r.Keys == p.Keys + (set k | k in keys)
      && (forall k :: k in keys ==> r[k] == Replayed(p, k, store))
      && (forall k :: k in p && k !in keys ==> r[k] == p[k])
  {
    ReplayKeysDomain(p, keys, store);
    ReplayKeysValues(p, keys, store);
  }

  /** The replay: the actions grouped by serial, the groups visited in key
      order, each group applied to its serial's state. */
  ghost function ReplayActions(p: Pending, store: seq<Action>): (r: Pending)
    ensures r.Keys == p.Keys + SerialsOf(store)
    ensures forall k :: k in SerialsOf(store) ==> r[k] == Replayed(p, k, store)
    ensures forall k :: k in p && k !in SerialsOf(store) ==> r[k] == p[k]
  {
    var keys := Text.SortedKeys(SerialsOf(store));
    Text.SortedDistinct(keys);
    assert (set k | k in keys) == SerialsOf(store);
    ReplayKeysEffect(p, keys, store);
    ReplayKeys(p, keys, store)
  }

  /** Replaying keeps every state exclusive and every known state known. */
  lemma ReplayKeepsShape(p: Pending, store: seq<Action>)
    requires AllExclusive(p)
    ensures AllExclusive(ReplayActions(p, store))
    ensures forall k :: k in p && p[k].Some? ==> ReplayActions(p, store)[k].Some?
  {
    var r := ReplayActions(p, store);
    forall k | k in r && r[k].Some?
      ensures Exclusive(r[k].value)
    {
      if k !in SerialsOf(store) {
        assert r[k] == p[k];
      }
    }
  }

  /** The loop that derives every non-null state's resulting size. */
  function UpdateAll(p: Pending): (r: Pending)
    ensures r.Keys == p.Keys
    ensures forall k :: k in p ==> r[k] == (match p[k] case None => None case Some(st) => Some(UpdateResultingDimensions(st)))
    ensures AllExclusive(p) ==> AllExclusive(r)
  {
    map k | k in p :: match p[k] case None => None case Some(st) => Some(UpdateResultingDimensions(st))
  }
}
