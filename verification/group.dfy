/** A preset group of output configurations (`config/outputs/group.cpp`): its
    TOML form, the lookup of one output's configuration, and what applying it
    does to the batch system's queue and to the heads. */
module ConfigGroups {
  import opened Wrappers
  import opened Geometry
  import opened Toml
  import opened ActionTypes
  import opened Actions
  import opened ActionStore
  import opened MetaHeads
  import opened OutputConfigs
  import opened PresetQueue
  import Transaction

  /** `Config::Outputs::Group`. */
  datatype Group = Group(
    name: string,
    preferred: bool,
    storedIdentifiers: seq<string>,
    primaryOutput: string,
    outputs: seq<OutputConfig>)

  /** The default constructor. */
  function NewGroup(): Group {
    Group("", false, [], "", [])
  }

  // ---------------------------------------------------------------------------
  // TOML

  /** The `output` array of a group: every element must be a table the
      output constructor accepts, or the group constructor throws. */
  function ParseOutputs(items: seq<Value>): (r: Option<seq<OutputConfig>>)
    ensures r.Some? <==> forall i :: 0 <= i < |items| ==> items[i].TTable? && OutputFromToml(items[i].fields).Some?
    ensures r.Some? ==> |r.value| == |items|
    ensures r.Some? ==> forall i :: 0 <= i < |items| ==> OutputFromToml(items[i].fields) == Some(r.value[i])
    decreases |items|
  {
    if items == [] then Some([])
    else if !items[0].TTable? then None
    else
      match OutputFromToml(items[0].fields)
      case None => None
      case Some(o) =>
        match ParseOutputs(items[1..])
        case None =>
          assert !(items[1..][0].TTable? && OutputFromToml(items[1..][0].fields).Some?) || exists i :: 0 <= i < |items[1..]| && !(items[1..][i].TTable? && OutputFromToml(items[1..][i].fields).Some?);
          None
        case Some(rest) => Some([o] + rest)
  }

  /** The TOML constructor: `name` and `primary_output` are required, a
      missing `identifiers` list reads as empty, `preferred` as false and
      `output` as no outputs. */
  function GroupFromToml(t: Table): (r: Option<Group>)
    ensures r.Some? <==> FindString(t, KName).Some? && FindString(t, KPrimaryOutput).Some? && ParseOutputs(FindArray(t, KOutput).GetOr([])).Some?
    ensures r.Some? ==> r.value.name == t[KName].s && r.value.primaryOutput == t[KPrimaryOutput].s
    ensures r.Some? && KIdentifiers !in t ==> r.value.storedIdentifiers == []
    ensures r.Some? && KPreferred !in t ==> !r.value.preferred
    ensures r.Some? && KOutput !in t ==> r.value.outputs == []
  {
    var name :- FindString(t, KName);
    var primary :- FindString(t, KPrimaryOutput);
    var outputs :- ParseOutputs(FindArray(t, KOutput).GetOr([]));
    Some(Group(name, FindBool(t, KPreferred).GetOr(false), FindStrings(t, KIdentifiers).GetOr([]), primary, outputs))
  }

  /** The output tables of `Group::toToml`. */
  function OutputTables(outputs: seq<OutputConfig>, shim: bool): (items: seq<Value>)
    ensures |items| == |outputs|
    ensures forall i :: 0 <= i < |outputs| ==> items[i] == TTable(OutputToToml(outputs[i], shim))
  {
    seq(|outputs|, i requires 0 <= i < |outputs| => TTable(OutputToToml(outputs[i], shim)))
  }

  /** `Group::toToml`. */
  function GroupToToml(g: Group, shim: bool): (t: Table)
    ensures FindString(t, KName) == Some(g.name) && FindString(t, KPrimaryOutput) == Some(g.primaryOutput)
    ensures FindArray(t, KOutput) == Some(OutputTables(g.outputs, shim))
  {
    map[
      KName := TString(g.name),
      KPreferred := TBool(g.preferred),
      KIdentifiers := StringArray(g.storedIdentifiers),
      KPrimaryOutput := TString(g.primaryOutput),
      KOutput := TArray(OutputTables(g.outputs, shim))]
  }

  /** Every output of a group as it reads back after a save. */
  function ReloadedAll(outputs: seq<OutputConfig>, shim: bool): (r: seq<OutputConfig>)
    ensures |r| == |outputs|
    ensures forall i :: 0 <= i < |outputs| ==> r[i] == Reloaded(outputs[i], shim)
  {
    seq(|outputs|, i requires 0 <= i < |outputs| => Reloaded(outputs[i], shim))
  }

  /** The output tables a group writes read back as its outputs, each with
      what `Reloaded` says survives. */
  lemma OutputTablesRoundTrip(outputs: seq<OutputConfig>, shim: bool)
    ensures ParseOutputs(OutputTables(outputs, shim)) == Some(ReloadedAll(outputs, shim))
  {
    var items := OutputTables(outputs, shim);
    forall i | 0 <= i < |outputs|
      ensures OutputFromToml(items[i].fields) == Some(Reloaded(outputs[i], shim))
    {
      OutputRoundTrip(outputs[i], shim);
    }
    var r := ParseOutputs(items);
    assert r.Some?;
    assert r.value == ReloadedAll(outputs, shim);
  }

  /** A saved group reads back with its name, preference, identifiers and
      primary output, and its outputs as `Reloaded` describes. */
  lemma GroupRoundTrip(g: Group, shim: bool)
    ensures GroupFromToml(GroupToToml(g, shim)) == Some(g.(outputs := ReloadedAll(g.outputs, shim)))
  {
    OutputTablesRoundTrip(g.outputs, shim);
    var t := GroupToToml(g, shim);
    assert FindBool(t, KPreferred) == Some(g.preferred);
    assert FindStrings(t, KIdentifiers) == Some(g.storedIdentifiers);
  }

  /** `Group::getOutputForIdentifier`: the first output configured under this
      identifier, if any. */
  function GetOutputForIdentifier(g: Group, id: string): (r: Option<OutputConfig>)
    ensures r.None? <==> forall i :: 0 <= i < |g.outputs| ==> g.outputs[i].identifier != id
    ensures forall i :: 0 <= i < |g.outputs| && g.outputs[i].identifier == id &&
                        (forall j :: 0 <= j < i ==> g.outputs[j].identifier != id)
                        ==> r == Some(g.outputs[i])
  {
    match Seqs.FirstIndexWhere(g.outputs, (o: OutputConfig) => o.identifier == id)
    case Some(i) => Some(g.outputs[i])
    case None => None
  }

  // ---------------------------------------------------------------------------
  // Applying a group

  function KindsOf(acts: seq<Action>): (r: seq<ActionType>)
    ensures |r| == |acts| && forall i :: 0 <= i < |acts| ==> r[i] == acts[i].kind
  {
    seq(|acts|, i requires 0 <= i < |acts| => acts[i].kind)
  }

  /** The placement action of an enabled output: absolute in shim mode, else
      an anchor when it names a relative output, else none. */
  function PlacementActions(o: OutputConfig, shim: bool): seq<Action> {
    if shim then [AbsolutePosition(o.identifier, Point(o.x, o.y))]
    else if o.relativeOutput != "" then [PositionAnchor(o.identifier, o.relativeOutput, o.hAnchor, o.vAnchor)]
    else []
  }

  /** The actions one output configuration queues in `Group::apply`: a disabled
      output only switches off; an enabled one switches on, sets its mode, its
      placement, then scale, transform and adaptive sync. Every action is for
      this output and none sets the primary output. */
  function OutputActions(o: OutputConfig, shim: bool): (r: seq<Action>)
    ensures o.disabled ==> r == [ExplicitOff(o.identifier)]
    ensures forall i :: 0 <= i < |r| ==> r[i].serial == o.identifier && r[i].kind != SetPrimary
  {
    var id := o.identifier;
    if o.disabled then [ExplicitOff(id)]
    else
      [ExplicitOn(id), Mode(id, Size(o.width, o.height), o.refresh)] + PlacementActions(o, shim)
      + [Scale(id, o.scale), Transform(id, o.transform), AdaptiveSync(id, o.adaptiveSync)]
  }

  /** The kinds an enabled output queues, in order, and the values they carry. */
  lemma EnabledOutputActions(o: OutputConfig, shim: bool)
    requires !o.disabled
    ensures var r := OutputActions(o, shim);
      && KindsOf(r) == [SetOnOff, SetMode]
                       + (if shim then [SetAbsolutePosition] else if o.relativeOutput != "" then [SetPositionAnchor] else [])
                       + [SetScale, SetTransform, SetAdaptiveSync]
      && r[0].on
      && r[1].dimensions == Size(o.width, o.height) && r[1].refresh == o.refresh
      && r[|r| - 3].scale == o.scale && r[|r| - 2].transform == o.transform && r[|r| - 1].adaptiveSync == o.adaptiveSync
  {
    var r := OutputActions(o, shim);
    var p := PlacementActions(o, shim);
    var kp := if shim then [SetAbsolutePosition] else if o.relativeOutput != "" then [SetPositionAnchor] else [];
    assert |p| == |kp| && forall i :: 0 <= i < |p| ==> p[i].kind == kp[i];
    var ks := [SetOnOff, SetMode] + kp + [SetScale, SetTransform, SetAdaptiveSync];
    assert |r| == |ks|;
    forall i | 0 <= i < |r|
      ensures r[i].kind == ks[i]
    {
      if 2 <= i < 2 + |p| {
        assert r[i] == p[i - 2];
      }
    }
  }

  /** The actions of all outputs, in configuration order. */
  function GroupActions(outputs: seq<OutputConfig>, shim: bool): seq<Action>
    decreases |outputs|
  {
    if outputs == [] then [] else OutputActions(outputs[0], shim) + GroupActions(outputs[1..], shim)
  }

  lemma {:induction false} GroupActionsAppend(a: seq<OutputConfig>, b: seq<OutputConfig>, shim: bool)
    ensures GroupActions(a + b, shim) == GroupActions(a, shim) + GroupActions(b, shim)
    decreases |a|
  {
    if a == [] {
      assert a + b == b;
    } else {
      assert (a + b)[1..] == a[1..] + b;
      GroupActionsAppend(a[1..], b, shim);
    }
  }

  /** Every action of a group is for one of its outputs and none sets the
      primary output. */
  lemma {:induction false} GroupActionsTargetOutputs(outputs: seq<OutputConfig>, shim: bool, a: Action)
    requires a in GroupActions(outputs, shim)
    ensures a.kind != SetPrimary
    ensures exists i :: 0 <= i < |outputs| && a.serial == outputs[i].identifier
    decreases |outputs|
  {
    var here := OutputActions(outputs[0], shim);
    if a in here {
      var k :| 0 <= k < |here| && here[k] == a;
    } else {
      GroupActionsTargetOutputs(outputs[1..], shim, a);
      var i :| 0 <= i < |outputs[1..]| && a.serial == outputs[1..][i].identifier;
      assert a.serial == outputs[i + 1].identifier;
    }
  }

  /** The queue `Group::apply` leaves: the reset queue with every output's
      actions added in order. */
  function GroupQueue(g: Group, shim: bool): Store {
    Enqueue(Reset(), GroupActions(g.outputs, shim))
  }

  /** A disabled output wipes the actions of every output configured before
      it: the queue is what its switch-off and the later outputs make. */
  lemma DisabledOutputDiscardsEarlier(g: Group, shim: bool, i: nat)
    requires i < |g.outputs| && g.outputs[i].disabled
    ensures GroupQueue(g, shim) == Enqueue([ExplicitOff(g.outputs[i].identifier)], GroupActions(g.outputs[i + 1..], shim))
  {
    var os := g.outputs;
    assert os == os[..i] + ([os[i]] + os[i + 1..]);
    GroupActionsAppend(os[..i], [os[i]] + os[i + 1..], shim);
    GroupActionsAppend([os[i]], os[i + 1..], shim);
    assert GroupActions([os[i]], shim) == [ExplicitOff(os[i].identifier)] by {
      assert [os[i]][1..] == [];
    }
    assert GroupActions(os, shim) == GroupActions(os[..i], shim) + [ExplicitOff(os[i].identifier)] + GroupActions(os[i + 1..], shim);
    SwitchOffDiscardsEarlier(Reset(), GroupActions(os[..i], shim), os[i].identifier, GroupActions(os[i + 1..], shim));
  }

  /** When the last output of a group is disabled, the queue holds nothing but
      its switch-off. */
  lemma LastDisabledLeavesOnlyOff(g: Group, shim: bool)
    requires |g.outputs| > 0 && g.outputs[|g.outputs| - 1].disabled
    ensures GroupQueue(g, shim) == [ExplicitOff(g.outputs[|g.outputs| - 1].identifier)]
  {
    var i := |g.outputs| - 1;
    DisabledOutputDiscardsEarlier(g, shim, i);
    assert g.outputs[i + 1..] == [];
  }

  /** The queue a group leaves has at most one action per output and kind,
      holds no primary action, and only actions for the group's outputs. */
  lemma GroupQueueShape(g: Group, shim: bool)
    ensures UniqueKeys(GroupQueue(g, shim))
    ensures forall a :: a in GroupQueue(g, shim) ==> a.kind != SetPrimary
    ensures forall a :: a in GroupQueue(g, shim) ==> exists i :: 0 <= i < |g.outputs| && a.serial == g.outputs[i].identifier
  {
    EnqueueKeepsUnique(Reset(), GroupActions(g.outputs, shim));
    forall a | a in GroupQueue(g, shim)
      ensures a.kind != SetPrimary
      ensures exists i :: 0 <= i < |g.outputs| && a.serial == g.outputs[i].identifier
    {
      EnqueueDrawsFrom(Reset(), GroupActions(g.outputs, shim), a);
      GroupActionsTargetOutputs(g.outputs, shim, a);
    }
  }

  /** Whether an enabled output of the list is configured under this
      identifier. */
  predicate NamesEnabled(outputs: seq<OutputConfig>, id: string) {
    exists k :: 0 <= k < |outputs| && !outputs[k].disabled && outputs[k].identifier == id
  }

  /** The anchoring `Group::apply` writes back to the heads: outside shim
      mode, for each enabled output in turn, the head with its identifier
      gets the output's relative output and anchors, or loses its anchoring
      when the output names no relative output. A head no enabled output
      names is left alone. */
  function GroupHeads(heads: seq<MetaHead>, outputs: seq<OutputConfig>, shim: bool, src: IdSource): (r: seq<MetaHead>)
    ensures |r| == |heads|
    ensures shim ==> r == heads
    ensures forall j :: 0 <= j < |heads| && !NamesEnabled(outputs, Identifier(heads[j])) ==> r[j] == heads[j]
    decreases |outputs|
  {
    if shim || outputs == [] then heads
    else
      var o := outputs[0];
      var hs := if o.disabled then heads else AnchorHead(heads, o.identifier, o.relativeOutput, o.hAnchor, o.vAnchor, src);
      var r := GroupHeads(hs, outputs[1..], shim, src);
      assert forall j :: 0 <= j < |heads| && !NamesEnabled(outputs, Identifier(heads[j])) ==> r[j] == heads[j] by {
        forall j | 0 <= j < |heads| && !NamesEnabled(outputs, Identifier(heads[j]))
          ensures r[j] == heads[j]
        {
          if !o.disabled {
            assert Identifier(heads[j]) != o.identifier;
          }
          assert hs[j] == heads[j];
        }
      }
      r
  }

  /** Output `k` is the last enabled output with identifier `id`. */
  predicate LastEnabledFor(outputs: seq<OutputConfig>, k: int, id: string) {
    && 0 <= k < |outputs| && !outputs[k].disabled && outputs[k].identifier == id
    && forall m :: k < m < |outputs| ==> outputs[m].disabled || outputs[m].identifier != id
  }

  /** Outside shim mode, on identified heads, the head the lookup finds for
      an output's identifier ends with the anchoring of the last enabled
      output naming it; identifiers are kept. */
  lemma {:induction false} GroupHeadsWritesAnchoring(heads: seq<MetaHead>, outputs: seq<OutputConfig>, src: IdSource)
    requires AllIdentified(heads)
    ensures var r := GroupHeads(heads, outputs, false, src);
      && AllIdentified(r)
      && (forall j :: 0 <= j < |heads| ==> Identifier(r[j]) == Identifier(heads[j]))
      && forall j, k :: 0 <= j < |heads| && LastEnabledFor(outputs, k, Identifier(heads[j]))
                        && GetOutputHead(heads, Identifier(heads[j])) == Some(j)
                        ==> AnchoredAs(r[j], outputs[k].relativeOutput, outputs[k].hAnchor, outputs[k].vAnchor)
    decreases |outputs|
  {
    if outputs != [] {
      var o := outputs[0];
      var rest := outputs[1..];
      var hs := if o.disabled then heads else AnchorHead(heads, o.identifier, o.relativeOutput, o.hAnchor, o.vAnchor, src);
      if !o.disabled {
        AnchorHeadKeepsIdentifiers(heads, o.identifier, o.relativeOutput, o.hAnchor, o.vAnchor, src);
      }
      GroupHeadsWritesAnchoring(hs, rest, src);
      var r := GroupHeads(hs, rest, false, src);
      assert r == GroupHeads(heads, outputs, false, src);
      forall j, k | 0 <= j < |heads| && LastEnabledFor(outputs, k, Identifier(heads[j]))
                    && GetOutputHead(heads, Identifier(heads[j])) == Some(j)
        ensures AnchoredAs(r[j], outputs[k].relativeOutput, outputs[k].hAnchor, outputs[k].vAnchor)
      {
        var id := Identifier(heads[j]);
        SameIdentifiersSameLookup(heads, hs, id);
        if k == 0 {
          assert AnchoredAs(hs[j], o.relativeOutput, o.hAnchor, o.vAnchor);
          assert !NamesEnabled(rest, Identifier(hs[j])) by {
            forall m | 0 <= m < |rest|
              ensures rest[m].disabled || rest[m].identifier != id
            {
              assert rest[m] == outputs[m + 1];
            }
          }
        } else {
          assert LastEnabledFor(rest, k - 1, Identifier(hs[j])) by {
            forall m | k - 1 < m < |rest|
              ensures rest[m].disabled || rest[m].identifier != id
            {
              assert rest[m] == outputs[m + 1];
            }
          }
        }
      }
    }
  }

  /** What applying a group leaves behind: the heads, the queue, and what the
      batch system submitted. */
  datatype Applied = Applied(heads: seq<MetaHead>, queue: Store, outcome: Transaction.ApplyOutcome)

  /** `Group::apply`. A group without outputs does nothing at all (the queue
      is not even reset). Otherwise the queue is rebuilt, the anchoring and
      the primary flag are written to the heads, and the batch system applies
      the queue to those heads. */
  ghost function ApplyGroup(g: Group, heads: seq<MetaHead>, shim: bool, src: IdSource): (r: Option<Applied>)
    ensures r.None? <==> g.outputs == []
    ensures r.Some? ==> r.value.queue == GroupQueue(g, shim) && r.value.outcome.Submitted?
    ensures r.Some? ==> |r.value.heads| == |heads|
    ensures r.Some? && g.primaryOutput != "" ==>
      forall i :: 0 <= i < |heads| ==> (r.value.heads[i].primary <==> Identifier(r.value.heads[i]) == g.primaryOutput)
  {
    if g.outputs == [] then None
    else
      var hs := MarkPrimary(GroupHeads(heads, g.outputs, shim, src), g.primaryOutput, src);
      var queue := GroupQueue(g, shim);
      Some(Applied(hs, queue, Transaction.Apply(hs, queue, shim, src)))
  }

  /** Applying a group outside shim mode to identified heads leaves each
      head the lookup finds for an enabled output with the anchoring of the
      last enabled output naming it. */
  lemma ApplyGroupWritesAnchoring(g: Group, heads: seq<MetaHead>, src: IdSource)
    requires AllIdentified(heads)
    ensures var r := ApplyGroup(g, heads, false, src);
      r.Some? ==> forall j, k :: 0 <= j < |heads| && LastEnabledFor(g.outputs, k, Identifier(heads[j]))
                                 && GetOutputHead(heads, Identifier(heads[j])) == Some(j)
                                 ==> AnchoredAs(r.value.heads[j], g.outputs[k].relativeOutput, g.outputs[k].hAnchor, g.outputs[k].vAnchor)
  {
    GroupHeadsWritesAnchoring(heads, g.outputs, src);
  }
}
