/** The display configuration (`config/display.cpp`): display groups read from
    and written to TOML, the choice of the group that fits the connected
    heads, the group generated from the current state, and what applying a
    group does to the batch system's queue and to the heads. */
module DisplayConfigs {
  import opened Wrappers
  import opened Geometry
  import opened Anchors
  import opened Toml
  import opened ActionTypes
  import opened Actions
  import opened ActionStore
  import opened MetaModes
  import opened MetaHeads
  import opened PresetQueue
  import opened OutputConfigs
  import opened ConfigGroups
  import Text
  import Seqs
  import Transaction

  /** `DisplayGroupOutputConfig`, field widths as declared. */
  datatype DisplayOutputConfig = DisplayOutputConfig(
    identifier: string,
    width: int32,
    height: int32,
    refresh: uint64,
    relativeOutput: string,
    hAnchor: HorizontalAnchor,
    vAnchor: VerticalAnchor,
    scale: real,
    rotation: int32,
    adaptiveSync: bool,
    disabled: bool)

  /** The default constructor. */
  function NewDisplayOutput(): DisplayOutputConfig {
    DisplayOutputConfig("", 0, 0, 0, "", HNone, VNone, 1.0, 0, false, false)
  }

  /** `DisplayGroup`. */
  datatype DisplayGroup = DisplayGroup(
    name: string,
    preferred: bool,
    outputIdentifiers: seq<string>,
    primaryOutput: string,
    configs: seq<DisplayOutputConfig>)

  /** The default constructor. */
  function NewDisplayGroup(): DisplayGroup {
    DisplayGroup("", false, [], "", [])
  }

  /** The groups read from the file and the group last applied. */
  datatype DisplayConfig = DisplayConfig(groups: seq<DisplayGroup>, active: Option<DisplayGroup>)

  // ---------------------------------------------------------------------------
  // TOML

  /** One `output` table of a group: identifier, width, height and refresh
      are required; every other key falls back to the default constructor's
      value when it is missing or of another type. */
  function DisplayOutputFromToml(t: Table): (r: Option<DisplayOutputConfig>)
    ensures r.Some? <==> HasRequiredKeys(t)
    ensures r.Some? ==> r.value.identifier == t[KIdentifier].s
    ensures r.Some? ==> r.value.width == Int32Of(t[KWidth].i) && r.value.height == Int32Of(t[KHeight].i)
    ensures r.Some? ==> r.value.refresh == Uint64Of(t[KRefresh].i)
    ensures r.Some? && KRelativeOutput !in t ==> r.value.relativeOutput == ""
    ensures r.Some? && KHorizontalAnchor !in t ==> r.value.hAnchor == HNone
    ensures r.Some? && KVerticalAnchor !in t ==> r.value.vAnchor == VNone
    ensures r.Some? && KScale !in t ==> r.value.scale == 1.0
    ensures r.Some? && KRotation !in t ==> r.value.rotation == 0
    ensures r.Some? && KAdaptiveSync !in t ==> !r.value.adaptiveSync
    ensures r.Some? && KDisabled !in t ==> !r.value.disabled
  {
    var id :- FindString(t, KIdentifier);
    var w :- FindInteger(t, KWidth);
    var h :- FindInteger(t, KHeight);
    var refresh :- FindInteger(t, KRefresh);
    Some(DisplayOutputConfig(
      id, Int32Of(w), Int32Of(h), Uint64Of(refresh),
      FindString(t, KRelativeOutput).GetOr(""),
      HorizontalFromString(FindString(t, KHorizontalAnchor).GetOr("none")),
      VerticalFromString(FindString(t, KVerticalAnchor).GetOr("none")),
      FindFloat(t, KScale).GetOr(1.0),
      Int32Of(FindInteger(t, KRotation).GetOr(0)),
      FindBool(t, KAdaptiveSync).GetOr(false),
      FindBool(t, KDisabled).GetOr(false)))
  }

  /** `DisplayGroupOutputConfig::toToml`: `relative_output` is written only
      when it is not empty; every other field always. */
  function DisplayOutputToToml(c: DisplayOutputConfig): (t: Table)
    ensures HasRequiredKeys(t)
    ensures KRelativeOutput in t <==> c.relativeOutput != ""
    ensures KHorizontalAnchor in t && KVerticalAnchor in t && KScale in t && KRotation in t
    ensures KAdaptiveSync in t && KDisabled in t
  {
    var common := map[
      KIdentifier := TString(c.identifier),
      KWidth := TInt(c.width),
      KHeight := TInt(c.height),
      KRefresh := TInt(Int64Of(c.refresh)),
      KHorizontalAnchor := TString(HorizontalToString(c.hAnchor)),
      KVerticalAnchor := TString(VerticalToString(c.vAnchor)),
      KScale := TFloat(c.scale),
      KRotation := TInt(c.rotation),
      KAdaptiveSync := TBool(c.adaptiveSync),
      KDisabled := TBool(c.disabled)];
    if c.relativeOutput != "" then common[KRelativeOutput := TString(c.relativeOutput)] else common
  }

  /** The identity and mode fields read back unchanged. */
  lemma DisplayModeFieldsRoundTrip(c: DisplayOutputConfig)
    ensures var t := DisplayOutputToToml(c);
      && FindString(t, KIdentifier) == Some(c.identifier)
      && Int32Of(FindInteger(t, KWidth).value) == c.width
      && Int32Of(FindInteger(t, KHeight).value) == c.height
      && Uint64Of(FindInteger(t, KRefresh).value) == c.refresh
  {
    Uint64ThroughInt64(c.refresh);
  }

  /** The relative output reads back unchanged: an empty one is left out of
      the table and the reader's default restores it. */
  lemma DisplayAnchoringRoundTrip(c: DisplayOutputConfig)
    ensures var t := DisplayOutputToToml(c);
      && FindString(t, KRelativeOutput).GetOr("") == c.relativeOutput
      && HorizontalFromString(FindString(t, KHorizontalAnchor).GetOr("none")) == HNone
      && VerticalFromString(FindString(t, KVerticalAnchor).GetOr("none")) == c.vAnchor
  {
    HorizontalRoundTripLosesAnchor(c.hAnchor);
    VerticalRoundTrip(c.vAnchor);
  }

  /** Scale, rotation and the two flags read back unchanged. */
  lemma DisplayPropertyFieldsRoundTrip(c: DisplayOutputConfig)
    ensures var t := DisplayOutputToToml(c);
      && FindFloat(t, KScale).GetOr(1.0) == c.scale
      && Int32Of(FindInteger(t, KRotation).GetOr(0)) == c.rotation
      && FindBool(t, KAdaptiveSync).GetOr(false) == c.adaptiveSync
      && FindBool(t, KDisabled).GetOr(false) == c.disabled
  {
  }

  /** A saved output configuration reads back whole, except the horizontal
      anchor, which is written in lower case and read back only under its
      enumerator name. */
  lemma DisplayOutputRoundTrip(c: DisplayOutputConfig)
    ensures DisplayOutputFromToml(DisplayOutputToToml(c)) == Some(c.(hAnchor := HNone))
  {
    DisplayModeFieldsRoundTrip(c);
    DisplayAnchoringRoundTrip(c);
    DisplayPropertyFieldsRoundTrip(c);
  }

  /** The `output` array of a group: every element must be a table the
      reader accepts, or the group constructor throws. */
  function ParseDisplayOutputs(items: seq<Value>): (r: Option<seq<DisplayOutputConfig>>)
    ensures r.Some? <==> forall i :: 0 <= i < |items| ==> items[i].TTable? && DisplayOutputFromToml(items[i].fields).Some?
    ensures r.Some? ==> |r.value| == |items|
    ensures r.Some? ==> forall i :: 0 <= i < |items| ==> DisplayOutputFromToml(items[i].fields) == Some(r.value[i])
    decreases |items|
  {
    if items == [] then Some([])
    else if !items[0].TTable? then None
    else
      match DisplayOutputFromToml(items[0].fields)
      case None => None
      case Some(c) =>
        match ParseDisplayOutputs(items[1..])
        case None =>
          assert exists i :: 0 <= i < |items[1..]| && !(items[1..][i].TTable? && DisplayOutputFromToml(items[1..][i].fields).Some?);
          None
        case Some(rest) => Some([c] + rest)
  }

  /** The TOML constructor of `DisplayGroup`: `name` and `primary_output`
      are required, a missing `identifiers` list reads as empty, `preferred`
      as false and `output` as no configurations. */
  function DisplayGroupFromToml(t: Table): (r: Option<DisplayGroup>)
    ensures r.Some? <==> FindString(t, KName).Some? && FindString(t, KPrimaryOutput).Some? && ParseDisplayOutputs(FindArray(t, KOutput).GetOr([])).Some?
    ensures r.Some? ==> r.value.name == t[KName].s && r.value.primaryOutput == t[KPrimaryOutput].s
    ensures r.Some? && KIdentifiers !in t ==> r.value.outputIdentifiers == []
    ensures r.Some? && KPreferred !in t ==> !r.value.preferred
    ensures r.Some? && KOutput !in t ==> r.value.configs == []
  {
    var name :- FindString(t, KName);
    var primary :- FindString(t, KPrimaryOutput);
    var configs :- ParseDisplayOutputs(FindArray(t, KOutput).GetOr([]));
    Some(DisplayGroup(name, FindBool(t, KPreferred).GetOr(false), FindStrings(t, KIdentifiers).GetOr([]), primary, configs))
  }

  function DisplayOutputTables(configs: seq<DisplayOutputConfig>): (items: seq<Value>)
    ensures |items| == |configs|
    ensures forall i :: 0 <= i < |configs| ==> items[i] == TTable(DisplayOutputToToml(configs[i]))
  {
    seq(|configs|, i requires 0 <= i < |configs| => TTable(DisplayOutputToToml(configs[i])))
  }

  /** `DisplayGroup::toToml`. */
  function DisplayGroupToToml(g: DisplayGroup): (t: Table)
    ensures FindString(t, KName) == Some(g.name) && FindString(t, KPrimaryOutput) == Some(g.primaryOutput)
    ensures FindArray(t, KOutput) == Some(DisplayOutputTables(g.configs))
  {
    map[
      KName := TString(g.name),
      KPreferred := TBool(g.preferred),
      KIdentifiers := StringArray(g.outputIdentifiers),
      KPrimaryOutput := TString(g.primaryOutput),
      KOutput := TArray(DisplayOutputTables(g.configs))]
  }

  /** Every configuration of a group without its horizontal anchor. */
  function WithoutHorizontalAnchors(configs: seq<DisplayOutputConfig>): (r: seq<DisplayOutputConfig>)
    ensures |r| == |configs|
    ensures forall i :: 0 <= i < |configs| ==> r[i] == configs[i].(hAnchor := HNone)
  {
    seq(|configs|, i requires 0 <= i < |configs| => configs[i].(hAnchor := HNone))
  }

  /** The saved configurations read back without their horizontal anchors. */
  lemma DisplayOutputTablesRoundTrip(configs: seq<DisplayOutputConfig>)
    ensures ParseDisplayOutputs(DisplayOutputTables(configs)) == Some(WithoutHorizontalAnchors(configs))
  {
    var items := DisplayOutputTables(configs);
    forall i | 0 <= i < |configs|
      ensures DisplayOutputFromToml(items[i].fields) == Some(configs[i].(hAnchor := HNone))
    {
      DisplayOutputRoundTrip(configs[i]);
    }
    var parsed := ParseDisplayOutputs(items);
    assert parsed.Some?;
    assert parsed.value == WithoutHorizontalAnchors(configs);
  }

  /** A saved display group reads back with its name, preference,
      identifiers and primary output, and its configurations without their
      horizontal anchors. */
  lemma DisplayGroupRoundTrip(g: DisplayGroup)
    ensures DisplayGroupFromToml(DisplayGroupToToml(g)) == Some(g.(configs := WithoutHorizontalAnchors(g.configs)))
  {
    DisplayOutputTablesRoundTrip(g.configs);
    var t := DisplayGroupToToml(g);
    assert FindBool(t, KPreferred) == Some(g.preferred);
    assert FindStrings(t, KIdentifiers) == Some(g.outputIdentifiers);
  }

  /** `DisplayGroup::getConfigForIdentifier`: the first configuration with
      this identifier, if any. */
  function GetConfigForIdentifier(g: DisplayGroup, id: string): (r: Option<DisplayOutputConfig>)
    ensures r.None? <==> forall i :: 0 <= i < |g.configs| ==> g.configs[i].identifier != id
    ensures forall i :: 0 <= i < |g.configs| && g.configs[i].identifier == id &&
                        (forall j :: 0 <= j < i ==> g.configs[j].identifier != id)
                        ==> r == Some(g.configs[i])
  {
    match Seqs.FirstIndexWhere(g.configs, (c: DisplayOutputConfig) => c.identifier == id)
    case Some(i) => Some(g.configs[i])
    case None => None
  }

  // ---------------------------------------------------------------------------
  // Choosing a group

  /** Some head with a non-empty identifier carries this one. Heads without
      an identifier are skipped, so the empty identifier is never found. */
  predicate HeadNamed(heads: seq<MetaHead>, id: string) {
    exists j :: 0 <= j < |heads| && Identifier(heads[j]) != "" && Identifier(heads[j]) == id
  }

  /** The test `getMatchingGroup` makes of each group: as many identifiers as
      heads, and each of them found on a head. Duplicates are not noticed, so
      this is weaker than the two being the same set. */
  predicate DisplayGroupMatches(g: DisplayGroup, heads: seq<MetaHead>) {
    |g.outputIdentifiers| == |heads| &&
    forall k :: 0 <= k < |g.outputIdentifiers| ==> HeadNamed(heads, g.outputIdentifiers[k])
  }

  /** The first loop of `getMatchingGroup`: the matching groups, in order. */
  function MatchingGroups(groups: seq<DisplayGroup>, heads: seq<MetaHead>): seq<DisplayGroup>
    decreases |groups|
  {
    if groups == [] then []
    else (if DisplayGroupMatches(groups[0], heads) then [groups[0]] else []) + MatchingGroups(groups[1..], heads)
  }

  /** The second loop: the first preferred group. */
  function FirstPreferred(groups: seq<DisplayGroup>): Option<DisplayGroup>
    decreases |groups|
  {
    if groups == [] then None
    else if groups[0].preferred then Some(groups[0])
    else FirstPreferred(groups[1..])
  }

  /** The two loops together pick the first group that is both preferred and
      matching, and nothing when there is none. */
  lemma FirstPreferredMatching(groups: seq<DisplayGroup>, heads: seq<MetaHead>)
    ensures var r := FirstPreferred(MatchingGroups(groups, heads));
      && (r.None? <==> forall i :: 0 <= i < |groups| ==> !(groups[i].preferred && DisplayGroupMatches(groups[i], heads)))
      && (r.Some? ==> exists i :: 0 <= i < |groups| && groups[i] == r.value
                        && groups[i].preferred && DisplayGroupMatches(groups[i], heads)
                        && forall j :: 0 <= j < i ==> !(groups[j].preferred && DisplayGroupMatches(groups[j], heads)))
  {
    NoPreferredMatching(groups, heads);
    FirstPreferredMatchingFound(groups, heads);
  }

  /** The first loop keeps the matching groups in order and drops the rest. */
  lemma MatchingGroupsStep(groups: seq<DisplayGroup>, heads: seq<MetaHead>)
    requires groups != []
    ensures DisplayGroupMatches(groups[0], heads) ==> MatchingGroups(groups, heads) == [groups[0]] + MatchingGroups(groups[1..], heads)
    ensures !DisplayGroupMatches(groups[0], heads) ==> MatchingGroups(groups, heads) == MatchingGroups(groups[1..], heads)
    ensures FirstPreferred(MatchingGroups(groups, heads)) ==
      if groups[0].preferred && DisplayGroupMatches(groups[0], heads) then Some(groups[0])
      else FirstPreferred(MatchingGroups(groups[1..], heads))
  {
    var rest := MatchingGroups(groups[1..], heads);
    if DisplayGroupMatches(groups[0], heads) {
      assert ([groups[0]] + rest)[1..] == rest;
    }
  }

  lemma {:induction false} NoPreferredMatching(groups: seq<DisplayGroup>, heads: seq<MetaHead>)
    ensures FirstPreferred(MatchingGroups(groups, heads)).None? <==>
      forall i :: 0 <= i < |groups| ==> !(groups[i].preferred && DisplayGroupMatches(groups[i], heads))
    decreases |groups|
  {
    if groups != [] {
      MatchingGroupsStep(groups, heads);
      NoPreferredMatching(groups[1..], heads);
      assert forall i :: 1 <= i < |groups| ==> groups[i] == groups[1..][i - 1];
    }
  }

  lemma {:induction false} FirstPreferredMatchingFound(groups: seq<DisplayGroup>, heads: seq<MetaHead>)
    ensures var r := FirstPreferred(MatchingGroups(groups, heads));
      r.Some? ==> exists i :: 0 <= i < |groups| && groups[i] == r.value
                    && groups[i].preferred && DisplayGroupMatches(groups[i], heads)
                    && forall j :: 0 <= j < i ==> !(groups[j].preferred && DisplayGroupMatches(groups[j], heads))
    decreases |groups|
  {
    if groups != [] {
      var g := groups[0];
      MatchingGroupsStep(groups, heads);
      if !(g.preferred && DisplayGroupMatches(g, heads)) {
        FirstPreferredMatchingFound(groups[1..], heads);
        var r := FirstPreferred(MatchingGroups(groups[1..], heads));
        if r.Some? {
          var i :| 0 <= i < |groups[1..]| && groups[1..][i] == r.value
                   && groups[1..][i].preferred && DisplayGroupMatches(groups[1..][i], heads)
                   && forall j :: 0 <= j < i ==> !(groups[1..][j].preferred && DisplayGroupMatches(groups[1..][j], heads));
          assert groups[i + 1] == r.value;
          assert forall j :: 1 <= j < i + 1 ==> groups[j] == groups[1..][j - 1];
        }
      }
    }
  }

  /** `DisplayConfig::getMatchingGroup`: among the groups that match the heads
      only a preferred one is returned, the first in file order; when no
      matching group is preferred the answer is none, with no fallback to the
      first match. */
  function GetMatchingGroup(groups: seq<DisplayGroup>, heads: seq<MetaHead>): (r: Option<DisplayGroup>)
    ensures r.None? <==> forall i :: 0 <= i < |groups| ==> !(groups[i].preferred && DisplayGroupMatches(groups[i], heads))
    ensures r.Some? ==> r.value.preferred && DisplayGroupMatches(r.value, heads)
    ensures r.Some? ==> (exists i :: 0 <= i < |groups| && groups[i] == r.value
                           && forall j :: 0 <= j < i ==> !(groups[j].preferred && DisplayGroupMatches(groups[j], heads)))
  {
    FirstPreferredMatching(groups, heads);
    var matching := MatchingGroups(groups, heads);
    if matching == [] then None else FirstPreferred(matching)
  }

  // ---------------------------------------------------------------------------
  // Applying a group

  /** The actions `DisplayConfig::apply` queues for one listed identifier
      and its configuration: a disabled output only switches off; an enabled
      one switches on, sets its mode, an anchor when it names a relative
      output, then scale, the rotation cast to eight bits, and adaptive sync
      as one or zero. Every action is for this identifier and none sets the
      primary output. */
  function DisplayOutputActions(c: DisplayOutputConfig, serial: string): (r: seq<Action>)
    ensures c.disabled ==> r == [ExplicitOff(serial)]
    ensures forall i :: 0 <= i < |r| ==> r[i].serial == serial && r[i].kind != SetPrimary
  {
    if c.disabled then [ExplicitOff(serial)]
    else
      [ExplicitOn(serial), Mode(serial, Size(c.width, c.height), c.refresh)]
      + (if c.relativeOutput != "" then [PositionAnchor(serial, c.relativeOutput, c.hAnchor, c.vAnchor)] else [])
      + [Scale(serial, c.scale), Transform(serial, Uint8Of(c.rotation)), AdaptiveSync(serial, if c.adaptiveSync then 1 else 0)]
  }

  /** The kinds an enabled configuration queues, in order, and the values
      they carry. */
  lemma EnabledDisplayActions(c: DisplayOutputConfig, serial: string)
    requires !c.disabled
    ensures var r := DisplayOutputActions(c, serial);
      && KindsOf(r) == [SetOnOff, SetMode]
                       + (if c.relativeOutput != "" then [SetPositionAnchor] else [])
                       + [SetScale, SetTransform, SetAdaptiveSync]
      && r[0].on
      && r[1].dimensions == Size(c.width, c.height) && r[1].refresh == c.refresh
      && r[|r| - 3].scale == c.scale
      && r[|r| - 2].transform == Uint8Of(c.rotation)
      && (r[|r| - 1].adaptiveSync == 1 <==> c.adaptiveSync)
      && r[|r| - 1].adaptiveSync <= 1
  {
    var r := DisplayOutputActions(c, serial);
    var ks := [SetOnOff, SetMode] + (if c.relativeOutput != "" then [SetPositionAnchor] else []) + [SetScale, SetTransform, SetAdaptiveSync];
    assert |r| == |ks|;
    forall i | 0 <= i < |r|
      ensures r[i].kind == ks[i]
    {
    }
  }

  /** The actions for a run of listed identifiers: an identifier without a
      configuration is skipped. */
  function DisplayActions(g: DisplayGroup, ids: seq<string>): seq<Action>
    decreases |ids|
  {
    if ids == [] then []
    else
      var here := match GetConfigForIdentifier(g, ids[0])
        case None => []
        case Some(c) => DisplayOutputActions(c, ids[0]);
      here + DisplayActions(g, ids[1..])
  }

  lemma {:induction false} DisplayActionsAppend(g: DisplayGroup, a: seq<string>, b: seq<string>)
    ensures DisplayActions(g, a + b) == DisplayActions(g, a) + DisplayActions(g, b)
    decreases |a|
  {
    if a == [] {
      assert a + b == b;
    } else {
      assert (a + b)[1..] == a[1..] + b;
      DisplayActionsAppend(g, a[1..], b);
    }
  }

  /** Every action queued for a run of identifiers is for one of them that
      has a configuration, and none sets the primary output. */
  lemma {:induction false} DisplayActionsTargetIdentifiers(g: DisplayGroup, ids: seq<string>, a: Action)
    requires a in DisplayActions(g, ids)
    ensures a.kind != SetPrimary
    ensures a.serial in ids && GetConfigForIdentifier(g, a.serial).Some?
    decreases |ids|
  {
    var here := match GetConfigForIdentifier(g, ids[0])
      case None => []
      case Some(c) => DisplayOutputActions(c, ids[0]);
    if a in here {
      var k :| 0 <= k < |here| && here[k] == a;
    } else {
      DisplayActionsTargetIdentifiers(g, ids[1..], a);
    }
  }

  /** The queue `DisplayConfig::apply` leaves: the reset queue with the
      actions of every listed identifier added in order. */
  function DisplayQueue(g: DisplayGroup): Store {
    Enqueue(Reset(), DisplayActions(g, g.outputIdentifiers))
  }

  /** The queue a display group leaves has at most one action per output and
      kind, holds no primary action, and only actions for listed identifiers
      that have a configuration. */
  lemma DisplayQueueShape(g: DisplayGroup)
    ensures UniqueKeys(DisplayQueue(g))
    ensures forall a :: a in DisplayQueue(g) ==> a.kind != SetPrimary
    ensures forall a :: a in DisplayQueue(g) ==> a.serial in g.outputIdentifiers && GetConfigForIdentifier(g, a.serial).Some?
  {
    EnqueueKeepsUnique(Reset(), DisplayActions(g, g.outputIdentifiers));
    forall a | a in DisplayQueue(g)
      ensures a.kind != SetPrimary
      ensures a.serial in g.outputIdentifiers && GetConfigForIdentifier(g, a.serial).Some?
    {
      EnqueueDrawsFrom(Reset(), DisplayActions(g, g.outputIdentifiers), a);
      DisplayActionsTargetIdentifiers(g, g.outputIdentifiers, a);
    }
  }

  /** A listed identifier whose configuration is disabled wipes the actions
      of every identifier listed before it. */
  lemma DisplayDisabledDiscardsEarlier(g: DisplayGroup, k: nat)
    requires k < |g.outputIdentifiers|
    requires GetConfigForIdentifier(g, g.outputIdentifiers[k]).Some?
    requires GetConfigForIdentifier(g, g.outputIdentifiers[k]).value.disabled
    ensures DisplayQueue(g) == Enqueue([ExplicitOff(g.outputIdentifiers[k])], DisplayActions(g, g.outputIdentifiers[k + 1..]))
  {
    var ids := g.outputIdentifiers;
    assert ids == ids[..k] + ([ids[k]] + ids[k + 1..]);
    DisplayActionsAppend(g, ids[..k], [ids[k]] + ids[k + 1..]);
    DisplayActionsAppend(g, [ids[k]], ids[k + 1..]);
    assert DisplayActions(g, [ids[k]]) == [ExplicitOff(ids[k])] by {
      assert [ids[k]][1..] == [];
    }
    assert DisplayActions(g, ids) == DisplayActions(g, ids[..k]) + [ExplicitOff(ids[k])] + DisplayActions(g, ids[k + 1..]);
    SwitchOffDiscardsEarlier(Reset(), DisplayActions(g, ids[..k]), ids[k], DisplayActions(g, ids[k + 1..]));
  }

  /** Whether the group has an enabled configuration for this listed
      identifier. */
  predicate AnchorsHead(g: DisplayGroup, ids: seq<string>, id: string) {
    id in ids && GetConfigForIdentifier(g, id).Some? && !GetConfigForIdentifier(g, id).value.disabled
  }

  /** The anchoring `DisplayConfig::apply` writes back to the heads: for each
      listed identifier with an enabled configuration, in turn, the head with
      that identifier gets the relative output and anchors, or loses its
      anchoring when none is named. Unlike the preset groups this happens in
      shim mode too. A head no such identifier names is left alone. */
  function DisplayHeads(heads: seq<MetaHead>, g: DisplayGroup, ids: seq<string>, src: IdSource): (r: seq<MetaHead>)
    ensures |r| == |heads|
    ensures forall j :: 0 <= j < |heads| && !AnchorsHead(g, ids, Identifier(heads[j])) ==> r[j] == heads[j]
    decreases |ids|
  {
    if ids == [] then heads
    else
      var id := ids[0];
      var hs := match GetConfigForIdentifier(g, id)
        case Some(c) =>
          if c.disabled then heads else AnchorHead(heads, id, c.relativeOutput, c.hAnchor, c.vAnchor, src)
        case None => heads;
      var r := DisplayHeads(hs, g, ids[1..], src);
      assert forall j :: 0 <= j < |heads| && !AnchorsHead(g, ids, Identifier(heads[j])) ==> r[j] == heads[j] by {
        forall j | 0 <= j < |heads| && !AnchorsHead(g, ids, Identifier(heads[j]))
          ensures r[j] == heads[j]
        {
          if GetConfigForIdentifier(g, id).Some? && !GetConfigForIdentifier(g, id).value.disabled {
            assert Identifier(heads[j]) != id;
          }
          assert hs[j] == heads[j];
        }
      }
      r
  }

  /** On identified heads, the head the lookup finds for a listed identifier
      with an enabled configuration ends with that configuration's
      anchoring, in shim mode too; identifiers are kept. */
  lemma {:induction false} DisplayHeadsWritesAnchoring(heads: seq<MetaHead>, g: DisplayGroup, ids: seq<string>, src: IdSource)
    requires AllIdentified(heads)
    ensures var r := DisplayHeads(heads, g, ids, src);
      && AllIdentified(r)
      && (forall j :: 0 <= j < |heads| ==> Identifier(r[j]) == Identifier(heads[j]))
      && forall j :: 0 <= j < |heads| && AnchorsHead(g, ids, Identifier(heads[j]))
                     && GetOutputHead(heads, Identifier(heads[j])) == Some(j)
                     ==> var c := GetConfigForIdentifier(g, Identifier(heads[j])).value;
                         AnchoredAs(r[j], c.relativeOutput, c.hAnchor, c.vAnchor)
    decreases |ids|
  {
    if ids != [] {
      var id0 := ids[0];
      var rest := ids[1..];
      var hs := match GetConfigForIdentifier(g, id0)
        case Some(c) =>
          if c.disabled then heads else AnchorHead(heads, id0, c.relativeOutput, c.hAnchor, c.vAnchor, src)
        case None => heads;
      if GetConfigForIdentifier(g, id0).Some? && !GetConfigForIdentifier(g, id0).value.disabled {
        var c := GetConfigForIdentifier(g, id0).value;
        AnchorHeadKeepsIdentifiers(heads, id0, c.relativeOutput, c.hAnchor, c.vAnchor, src);
      }
      DisplayHeadsWritesAnchoring(hs, g, rest, src);
      var r := DisplayHeads(hs, g, rest, src);
      assert r == DisplayHeads(heads, g, ids, src);
      forall j | 0 <= j < |heads| && AnchorsHead(g, ids, Identifier(heads[j]))
                 && GetOutputHead(heads, Identifier(heads[j])) == Some(j)
        ensures var c := GetConfigForIdentifier(g, Identifier(heads[j])).value;
                AnchoredAs(r[j], c.relativeOutput, c.hAnchor, c.vAnchor)
      {
        var id := Identifier(heads[j]);
        SameIdentifiersSameLookup(heads, hs, id);
        assert id in ids;
        if !AnchorsHead(g, rest, id) {
          assert id == id0 by {
            assert ids == [id0] + rest;
          }
        }
      }
    }
  }

  /** `DisplayConfig::apply`. The heads are asked for their identifiers
      first. Without a preferred matching group nothing is applied and the
      configuration is unchanged. Otherwise that group becomes the active one,
      the queue is rebuilt from its listed identifiers, the anchoring and the
      primary flag are written to the heads, and the batch system applies the
      queue to those heads. */
  ghost function DisplayApply(cfg: DisplayConfig, heads: seq<MetaHead>, shim: bool, src: IdSource): (r: (DisplayConfig, Option<Applied>))
    ensures var m := GetMatchingGroup(cfg.groups, IdentifyAll(heads, src));
      && (m.None? ==> r.0 == cfg && r.1.None?)
      && (m.Some? ==> r.0 == cfg.(active := m) && r.1.Some?)
      && (m.Some? ==> r.1.value.queue == DisplayQueue(m.value) && r.1.value.outcome.Submitted?)
      && (m.Some? ==> |r.1.value.heads| == |heads|)
      && (m.Some? && m.value.primaryOutput != "" ==>
            forall i :: 0 <= i < |heads| ==> (r.1.value.heads[i].primary <==> Identifier(r.1.value.heads[i]) == m.value.primaryOutput))
  {
    var hs := IdentifyAll(heads, src);
    match GetMatchingGroup(cfg.groups, hs)
    case None => (cfg, None)
    case Some(g) =>
      var queue := DisplayQueue(g);
      var marked := MarkPrimary(DisplayHeads(hs, g, g.outputIdentifiers, src), g.primaryOutput, src);
      (cfg.(active := Some(g)), Some(Applied(marked, queue, Transaction.Apply(marked, queue, shim, src))))
  }

  /** Applying a display configuration whose digests are hex MD5 digests:
      each head the lookup finds for a listed identifier with an enabled
      configuration ends with that configuration's anchoring. */
  lemma DisplayApplyWritesAnchoring(cfg: DisplayConfig, heads: seq<MetaHead>, shim: bool, src: IdSource)
    requires HexDigests(src)
    ensures var hs := IdentifyAll(heads, src);
      var r := DisplayApply(cfg, heads, shim, src);
      r.1.Some? ==> var g := r.0.active.value;
        forall j :: 0 <= j < |heads| && AnchorsHead(g, g.outputIdentifiers, Identifier(hs[j]))
                    && GetOutputHead(hs, Identifier(hs[j])) == Some(j)
                    ==> var c := GetConfigForIdentifier(g, Identifier(hs[j])).value;
                        AnchoredAs(r.1.value.heads[j], c.relativeOutput, c.hAnchor, c.vAnchor)
  {
    var hs := IdentifyAll(heads, src);
    assert AllIdentified(hs);
    match GetMatchingGroup(cfg.groups, hs)
    case None =>
    case Some(g) =>
      DisplayHeadsWritesAnchoring(hs, g, g.outputIdentifiers, src);
  }

  // ---------------------------------------------------------------------------
  // The group generated from the current state

  /** The name each head contributes: its identifier, empty when it has none. */
  function HeadNames(heads: seq<MetaHead>): (r: seq<string>)
    ensures |r| == |heads|
    ensures forall j :: 0 <= j < |heads| ==> r[j] == Identifier(heads[j])
  {
    seq(|heads|, j requires 0 <= j < |heads| => Identifier(heads[j]))
  }

  /** A head the generated group configures: it has an identifier and a
      current mode with both a usable size and a refresh rate. */
  predicate Configurable(h: MetaHead) {
    Identifier(h) != "" && h.currentMode.Some? && Complete(h.currentMode.value)
  }

  /** The configuration generated for a configurable head: the mode's size and
      refresh, the head's anchoring, scale and transform, adaptive sync when
      it is not zero, and disabled when the head is not enabled. */
  function HeadConfig(h: MetaHead): DisplayOutputConfig
    requires Configurable(h)
  {
    var m := h.currentMode.value;
    DisplayOutputConfig(
      Identifier(h), Int32Of(m.size.w), Int32Of(m.size.h), Uint64Of(m.refresh),
      h.relativeOutput, h.hAnchor, h.vAnchor, h.scale, Int32Of(h.transform),
      h.adaptiveSync != 0, !h.enabled)
  }

  /** The configurations of the configurable heads, in head order. */
  function HeadConfigs(heads: seq<MetaHead>): (r: seq<DisplayOutputConfig>)
    ensures |r| <= |heads|
    decreases |heads|
  {
    if heads == [] then []
    else (if Configurable(heads[0]) then [HeadConfig(heads[0])] else []) + HeadConfigs(heads[1..])
  }

  /** Every generated configuration is that of a configurable head. */
  lemma {:induction false} HeadConfigsSound(heads: seq<MetaHead>, c: DisplayOutputConfig)
    requires c in HeadConfigs(heads)
    ensures exists j :: 0 <= j < |heads| && Configurable(heads[j]) && c == HeadConfig(heads[j])
    decreases |heads|
  {
    if !(Configurable(heads[0]) && c == HeadConfig(heads[0])) {
      HeadConfigsSound(heads[1..], c);
      var j :| 0 <= j < |heads[1..]| && Configurable(heads[1..][j]) && c == HeadConfig(heads[1..][j]);
      assert heads[j + 1] == heads[1..][j];
    }
  }

  /** Every configurable head has its configuration generated. */
  lemma {:induction false} HeadConfigsComplete(heads: seq<MetaHead>, j: nat)
    requires j < |heads| && Configurable(heads[j])
    ensures HeadConfig(heads[j]) in HeadConfigs(heads)
    decreases |heads|
  {
    if j > 0 {
      assert heads[j] == heads[1..][j - 1];
      HeadConfigsComplete(heads[1..], j - 1);
    }
  }

  /** `DisplayConfig::createDisplayGroupForState`: nothing without heads;
      otherwise a preferred group listing every head's identifier (an empty
      one for a head without), named after them, with the first as primary
      output. */
  function CreateDisplayGroupForState(heads: seq<MetaHead>, src: IdSource): (r: Option<DisplayGroup>)
    ensures r.None? <==> heads == []
    ensures r.Some? ==> var hs := IdentifyAll(heads, src);
      && r.value.preferred
      && r.value.outputIdentifiers == HeadNames(hs)
      && r.value.primaryOutput == Identifier(hs[0])
      && r.value.name == Text.Join(HeadNames(hs), ", ") + " (Auto Generated)"
      && |r.value.configs| <= |heads|
  {
    var hs := IdentifyAll(heads, src);
    var names := HeadNames(hs);
    if names == [] then None
    else Some(DisplayGroup(Text.Join(names, ", ") + " (Auto Generated)", true, names, names[0], HeadConfigs(hs)))
  }

  /** The generated group configures exactly the configurable heads: each of
      its configurations is that of such a head, and each such head has one. */
  lemma CreatedGroupConfigs(heads: seq<MetaHead>, src: IdSource)
    requires heads != []
    ensures var hs := IdentifyAll(heads, src);
      var cs := CreateDisplayGroupForState(heads, src).value.configs;
      && (forall c :: c in cs ==> exists j :: 0 <= j < |hs| && Configurable(hs[j]) && c == HeadConfig(hs[j]))
      && (forall j :: 0 <= j < |hs| && Configurable(hs[j]) ==> HeadConfig(hs[j]) in cs)
  {
    var hs := IdentifyAll(heads, src);
    forall c | c in HeadConfigs(hs)
      ensures exists j :: 0 <= j < |hs| && Configurable(hs[j]) && c == HeadConfig(hs[j])
    {
      HeadConfigsSound(hs, c);
    }
    forall j | 0 <= j < |hs| && Configurable(hs[j])
      ensures HeadConfig(hs[j]) in HeadConfigs(hs)
    {
      HeadConfigsComplete(hs, j);
    }
  }

  /** The group generated from the current state matches that state exactly
      when every head has a non-empty identifier: a head without one
      contributes an empty identifier, which the matching never finds. */
  lemma CreatedGroupMatchesIffIdentified(heads: seq<MetaHead>, src: IdSource)
    requires heads != []
    ensures var hs := IdentifyAll(heads, src);
      DisplayGroupMatches(CreateDisplayGroupForState(heads, src).value, hs)
      <==> forall j :: 0 <= j < |hs| ==> Identifier(hs[j]) != ""
  {
    var hs := IdentifyAll(heads, src);
    var g := CreateDisplayGroupForState(heads, src).value;
    if forall j :: 0 <= j < |hs| ==> Identifier(hs[j]) != "" {
      forall k | 0 <= k < |g.outputIdentifiers|
        ensures HeadNamed(hs, g.outputIdentifiers[k])
      {
        assert g.outputIdentifiers[k] == Identifier(hs[k]);
      }
    } else {
      var j :| 0 <= j < |hs| && Identifier(hs[j]) == "";
      assert g.outputIdentifiers[j] == "";
      assert !HeadNamed(hs, g.outputIdentifiers[j]);
    }
  }

  /** With hex digests every head has an identifier, so the generated group
      matches the heads it was made from. */
  lemma CreatedGroupAlwaysMatches(heads: seq<MetaHead>, src: IdSource)
    requires heads != [] && HexDigests(src)
    ensures DisplayGroupMatches(CreateDisplayGroupForState(heads, src).value, IdentifyAll(heads, src))
  {
    CreatedGroupMatchesIffIdentified(heads, src);
  }
}
