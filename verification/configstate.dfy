/** The preset state (`config/outputs/state.cpp`): the groups read from the
    configuration file, the choice of the group that fits the connected
    heads, the default group generated when none fits, and `apply`. */
module ConfigStates {
  import opened Wrappers
  import opened MetaHeads
  import opened OutputConfigs
  import opened ConfigGroups
  import Text

  /** `Config::Outputs::State`: its groups, the group last applied and the
      group last found to match. */
  datatype ConfigState = ConfigState(groups: seq<Group>, active: Option<Group>, matching: Option<Group>)

  /** The constructor: no groups, nothing active or matching. */
  function NewConfigState(): ConfigState {
    ConfigState([], None, None)
  }

  // ---------------------------------------------------------------------------
  // Choosing a group

  /** Some head carries this identifier. */
  predicate HasHead(heads: seq<MetaHead>, id: string) {
    exists j :: 0 <= j < |heads| && Identifier(heads[j]) == id
  }

  /** The test `getMatchingGroup` makes of each group: as many stored
      identifiers as heads, and each of them found on a head. Duplicates are
      not noticed, so this is weaker than the two being the same set. */
  predicate GroupMatches(g: Group, heads: seq<MetaHead>) {
    |g.storedIdentifiers| == |heads| &&
    forall k :: 0 <= k < |g.storedIdentifiers| ==> HasHead(heads, g.storedIdentifiers[k])
  }

  /** The first loop of `getMatchingGroup`: the matching groups, in order. */
  function MatchingGroups(groups: seq<Group>, heads: seq<MetaHead>): seq<Group>
    decreases |groups|
  {
    if groups == [] then []
    else (if GroupMatches(groups[0], heads) then [groups[0]] else []) + MatchingGroups(groups[1..], heads)
  }

  /** The second loop: the first preferred group. */
  function FirstPreferred(groups: seq<Group>): Option<Group>
    decreases |groups|
  {
    if groups == [] then None
    else if groups[0].preferred then Some(groups[0])
    else FirstPreferred(groups[1..])
  }

  /** There are no matching groups exactly when no group matches. */
  lemma {:induction false} NoMatching(groups: seq<Group>, heads: seq<MetaHead>)
    ensures MatchingGroups(groups, heads) == [] <==> forall i :: 0 <= i < |groups| ==> !GroupMatches(groups[i], heads)
    decreases |groups|
  {
    if groups != [] {
      NoMatching(groups[1..], heads);
      assert forall i :: 1 <= i < |groups| ==> groups[i] == groups[1..][i - 1];
    }
  }

  /** The matching groups start with the first group that matches. */
  lemma {:induction false} FirstMatching(groups: seq<Group>, heads: seq<MetaHead>)
    requires MatchingGroups(groups, heads) != []
    ensures exists i :: 0 <= i < |groups| && groups[i] == MatchingGroups(groups, heads)[0] && GroupMatches(groups[i], heads)
                        && forall j :: 0 <= j < i ==> !GroupMatches(groups[j], heads)
    decreases |groups|
  {
    if !GroupMatches(groups[0], heads) {
      var m := MatchingGroups(groups[1..], heads);
      assert MatchingGroups(groups, heads) == m;
      FirstMatching(groups[1..], heads);
      var i :| 0 <= i < |groups[1..]| && groups[1..][i] == m[0] && GroupMatches(groups[1..][i], heads)
               && forall j :: 0 <= j < i ==> !GroupMatches(groups[1..][j], heads);
      assert groups[i + 1] == m[0];
      assert forall j :: 1 <= j < i + 1 ==> groups[j] == groups[1..][j - 1];
    }
  }

  /** The two loops together pick the first group that is both preferred and
      matching, and nothing when there is none. */
  lemma FirstPreferredMatching(groups: seq<Group>, heads: seq<MetaHead>)
    ensures var r := FirstPreferred(MatchingGroups(groups, heads));
      && (r.None? <==> forall i :: 0 <= i < |groups| ==> !(groups[i].preferred && GroupMatches(groups[i], heads)))
      && (r.Some? ==> exists i :: 0 <= i < |groups| && groups[i] == r.value
                        && groups[i].preferred && GroupMatches(groups[i], heads)
                        && forall j :: 0 <= j < i ==> !(groups[j].preferred && GroupMatches(groups[j], heads)))
  {
    NoPreferredMatching(groups, heads);
    FirstPreferredMatchingFound(groups, heads);
  }

  /** The first loop keeps the matching groups in order and drops the rest. */
  lemma MatchingGroupsStep(groups: seq<Group>, heads: seq<MetaHead>)
    requires groups != []
    ensures GroupMatches(groups[0], heads) ==> MatchingGroups(groups, heads) == [groups[0]] + MatchingGroups(groups[1..], heads)
    ensures !GroupMatches(groups[0], heads) ==> MatchingGroups(groups, heads) == MatchingGroups(groups[1..], heads)
    ensures FirstPreferred(MatchingGroups(groups, heads)) ==
      if groups[0].preferred && GroupMatches(groups[0], heads) then Some(groups[0])
      else FirstPreferred(MatchingGroups(groups[1..], heads))
  {
    var rest := MatchingGroups(groups[1..], heads);
    if GroupMatches(groups[0], heads) {
      assert ([groups[0]] + rest)[1..] == rest;
    }
  }

  lemma {:induction false} NoPreferredMatching(groups: seq<Group>, heads: seq<MetaHead>)
    ensures FirstPreferred(MatchingGroups(groups, heads)).None? <==>
      forall i :: 0 <= i < |groups| ==> !(groups[i].preferred && GroupMatches(groups[i], heads))
    decreases |groups|
  {
    if groups != [] {
      MatchingGroupsStep(groups, heads);
      NoPreferredMatching(groups[1..], heads);
      assert forall i :: 1 <= i < |groups| ==> groups[i] == groups[1..][i - 1];
    }
  }

  lemma {:induction false} FirstPreferredMatchingFound(groups: seq<Group>, heads: seq<MetaHead>)
    ensures var r := FirstPreferred(MatchingGroups(groups, heads));
      r.Some? ==> exists i :: 0 <= i < |groups| && groups[i] == r.value
                    && groups[i].preferred && GroupMatches(groups[i], heads)
                    && forall j :: 0 <= j < i ==> !(groups[j].preferred && GroupMatches(groups[j], heads))
    decreases |groups|
  {
    if groups != [] {
      var g := groups[0];
      MatchingGroupsStep(groups, heads);
      if !(g.preferred && GroupMatches(g, heads)) {
        FirstPreferredMatchingFound(groups[1..], heads);
        var r := FirstPreferred(MatchingGroups(groups[1..], heads));
        if r.Some? {
          var i :| 0 <= i < |groups[1..]| && groups[1..][i] == r.value
                   && groups[1..][i].preferred && GroupMatches(groups[1..][i], heads)
                   && forall j :: 0 <= j < i ==> !(groups[1..][j].preferred && GroupMatches(groups[1..][j], heads));
          assert groups[i + 1] == r.value;
          assert forall j :: 1 <= j < i + 1 ==> groups[j] == groups[1..][j - 1];
        }
      }
    }
  }

  /** `State::getMatchingGroup`: nothing when no group matches the heads;
      otherwise the first preferred matching group, or, when no matching
      group is preferred, the first matching group. */
  function GetMatchingGroup(groups: seq<Group>, heads: seq<MetaHead>): (r: Option<Group>)
    ensures r.None? <==> forall i :: 0 <= i < |groups| ==> !GroupMatches(groups[i], heads)
    ensures r.Some? ==> GroupMatches(r.value, heads)
    ensures (exists i :: 0 <= i < |groups| && groups[i].preferred && GroupMatches(groups[i], heads)) ==>
      r.Some? && r.value.preferred &&
      exists i :: 0 <= i < |groups| && groups[i] == r.value
                  && forall j :: 0 <= j < i ==> !(groups[j].preferred && GroupMatches(groups[j], heads))
    ensures (forall i :: 0 <= i < |groups| ==> !(groups[i].preferred && GroupMatches(groups[i], heads))) && r.Some? ==>
      exists i :: 0 <= i < |groups| && groups[i] == r.value
                  && forall j :: 0 <= j < i ==> !GroupMatches(groups[j], heads)
  {
    NoMatching(groups, heads);
    FirstPreferredMatching(groups, heads);
    var matching := MatchingGroups(groups, heads);
    if matching == [] then None
    else
      FirstMatching(groups, heads);
      match FirstPreferred(matching)
      case Some(g) => Some(g)
      case None => Some(matching[0])
  }

  // ---------------------------------------------------------------------------
  // The default group

  /** The identifiers of the heads that have one, in head order. */
  function NonEmptyNames(heads: seq<MetaHead>): (r: seq<string>)
    ensures |r| <= |heads|
    decreases |heads|
  {
    if heads == [] then []
    else (if Identifier(heads[0]) != "" then [Identifier(heads[0])] else []) + NonEmptyNames(heads[1..])
  }

  /** Every name is a non-empty identifier of some head. */
  lemma {:induction false} NonEmptyNamesSound(heads: seq<MetaHead>, k: nat)
    requires k < |NonEmptyNames(heads)|
    ensures NonEmptyNames(heads)[k] != "" && HasHead(heads, NonEmptyNames(heads)[k])
    decreases |heads|
  {
    var rest := NonEmptyNames(heads[1..]);
    if Identifier(heads[0]) != "" && k == 0 {
    } else {
      var k' := if Identifier(heads[0]) != "" then k - 1 else k;
      assert NonEmptyNames(heads)[k] == rest[k'];
      NonEmptyNamesSound(heads[1..], k');
      var j :| 0 <= j < |heads[1..]| && Identifier(heads[1..][j]) == rest[k'];
      assert heads[j + 1] == heads[1..][j];
    }
  }

  /** Every head with an identifier contributes it. */
  lemma {:induction false} NonEmptyNamesComplete(heads: seq<MetaHead>, j: nat)
    requires j < |heads| && Identifier(heads[j]) != ""
    ensures Identifier(heads[j]) in NonEmptyNames(heads)
    decreases |heads|
  {
    if j > 0 {
      assert heads[j] == heads[1..][j - 1];
      NonEmptyNamesComplete(heads[1..], j - 1);
    }
  }

  /** There is a name for every head exactly when every head has an
      identifier. */
  lemma {:induction false} NonEmptyNamesLength(heads: seq<MetaHead>)
    ensures |NonEmptyNames(heads)| == |heads| <==> forall j :: 0 <= j < |heads| ==> Identifier(heads[j]) != ""
    decreases |heads|
  {
    if heads != [] {
      NonEmptyNamesLength(heads[1..]);
      assert forall j :: 1 <= j < |heads| ==> heads[j] == heads[1..][j - 1];
    }
  }

  /** The output configuration the default group holds for an identifier:
      the default constructor's, enabled, under that identifier. */
  function DefaultOutput(id: string): (o: OutputConfig)
    ensures o.identifier == id && !o.disabled
  {
    NewOutput().(disabled := false, identifier := id)
  }

  /** `State::createDefaultGroup`: a group for the heads that have an
      identifier, in head order, each with an enabled default output, named
      after them, with the first as primary output. Without any such head
      the source takes the first of an empty list; the model answers
      nothing. */
  function CreateDefaultGroup(heads: seq<MetaHead>, src: IdSource): (r: Option<Group>)
    ensures var names := NonEmptyNames(IdentifyAll(heads, src));
      && (r.None? <==> names == [])
      && (r.Some? ==> r.value.storedIdentifiers == names && r.value.primaryOutput == names[0]
                      && r.value.name == Text.Join(names, ", ") + " (Auto Generated)"
                      && !r.value.preferred)
      && (r.Some? ==> |r.value.outputs| == |names|
                      && forall k :: 0 <= k < |names| ==> r.value.outputs[k] == DefaultOutput(names[k]))
  {
    var names := NonEmptyNames(IdentifyAll(heads, src));
    if names == [] then None
    else
      var outputs := seq(|names|, k requires 0 <= k < |names| => DefaultOutput(names[k]));
      Some(NewGroup().(name := Text.Join(names, ", ") + " (Auto Generated)", outputs := outputs,
                       storedIdentifiers := names, primaryOutput := names[0]))
  }

  /** The default group matches the heads it was made from exactly when every
      head has an identifier: otherwise it lists fewer identifiers than there
      are heads. */
  lemma DefaultGroupMatchesIffIdentified(heads: seq<MetaHead>, src: IdSource)
    requires CreateDefaultGroup(heads, src).Some?
    ensures var hs := IdentifyAll(heads, src);
      GroupMatches(CreateDefaultGroup(heads, src).value, hs) <==> forall j :: 0 <= j < |hs| ==> Identifier(hs[j]) != ""
  {
    var hs := IdentifyAll(heads, src);
    var names := NonEmptyNames(hs);
    NonEmptyNamesLength(hs);
    forall k | 0 <= k < |names|
      ensures HasHead(hs, names[k])
    {
      NonEmptyNamesSound(hs, k);
    }
  }

  /** With hex digests every head has an identifier, so the default group
      exists for any heads and matches them. */
  lemma DefaultGroupAlwaysMatches(heads: seq<MetaHead>, src: IdSource)
    requires heads != [] && HexDigests(src)
    ensures CreateDefaultGroup(heads, src).Some?
    ensures GroupMatches(CreateDefaultGroup(heads, src).value, IdentifyAll(heads, src))
  {
    NonEmptyNamesComplete(IdentifyAll(heads, src), 0);
    DefaultGroupMatchesIffIdentified(heads, src);
  }

  // ---------------------------------------------------------------------------
  // Applying

  /** What `State::apply` leaves: the new state and what applying the chosen
      group did (nothing when that group has no outputs). */
  datatype StateApplied = StateApplied(state: ConfigState, applied: Option<Applied>)

  /** `State::apply`. The matching group is applied and becomes the active
      one. Without a match the default group is created, appended to the
      groups and applied instead; when no head has an identifier there is no
      default group and the source dereferences a null group, which the
      model answers with nothing. */
  ghost function StateApply(s: ConfigState, heads: seq<MetaHead>, shim: bool, src: IdSource): (r: Option<StateApplied>)
    ensures var m := GetMatchingGroup(s.groups, IdentifyAll(heads, src));
      && (m.Some? ==> r.Some? && r.value.state == s.(active := m)
                      && r.value.applied == ApplyGroup(m.value, IdentifyAll(heads, src), shim, src))
      && (m.None? ==> (r.None? <==> CreateDefaultGroup(heads, src).None?))
      && (m.None? && r.Some? ==>
            var d := CreateDefaultGroup(heads, src);
            && r.value.state == ConfigState(s.groups + [d.value], d, d)
            && r.value.applied == ApplyGroup(d.value, IdentifyAll(heads, src), shim, src))
  {
    var hs := IdentifyAll(heads, src);
    match GetMatchingGroup(s.groups, hs)
    case Some(g) => Some(StateApplied(s.(active := Some(g)), ApplyGroup(g, hs, shim, src)))
    case None =>
      match CreateDefaultGroup(heads, src)
      case None => None
      case Some(d) => Some(StateApplied(ConfigState(s.groups + [d], Some(d), Some(d)), ApplyGroup(d, hs, shim, src)))
  }

  /** With a matching group, applying keeps the list of groups and makes a
      matching group active. */
  lemma MatchKeepsGroups(s: ConfigState, heads: seq<MetaHead>, shim: bool, src: IdSource)
    requires GetMatchingGroup(s.groups, IdentifyAll(heads, src)).Some?
    ensures var r := StateApply(s, heads, shim, src);
      && r.Some? && r.value.state.groups == s.groups
      && r.value.state.active.Some? && GroupMatches(r.value.state.active.value, IdentifyAll(heads, src))
  {
  }

  /** Without a matching group but with every head identified, applying adds
      the default group, which then matches. */
  lemma DefaultGroupThenMatches(s: ConfigState, heads: seq<MetaHead>, shim: bool, src: IdSource)
    requires heads != []
    requires forall j :: 0 <= j < |heads| ==> Identifier(IdentifyAll(heads, src)[j]) != ""
    requires GetMatchingGroup(s.groups, IdentifyAll(heads, src)).None?
    ensures var r := StateApply(s, heads, shim, src);
      && r.Some? && r.value.state.active.Some?
      && GroupMatches(r.value.state.active.value, IdentifyAll(heads, src))
      && GetMatchingGroup(r.value.state.groups, IdentifyAll(heads, src)).Some?
  {
    var hs := IdentifyAll(heads, src);
    NonEmptyNamesComplete(hs, 0);
    var d := CreateDefaultGroup(heads, src).value;
    DefaultGroupMatchesIffIdentified(heads, src);
    assert GroupMatches(d, hs);
    var s1 := StateApply(s, heads, shim, src).value.state;
    assert s1.groups == s.groups + [d];
    assert s1.groups[|s.groups|] == d;
  }

  /** When every head has an identifier, applying twice to the same heads
      adds at most one group: the default group the first call may add
      matches on the second. The active group after either call matches the
      heads. */
  lemma ApplyAddsDefaultOnce(s: ConfigState, heads: seq<MetaHead>, shim: bool, src: IdSource)
    requires heads != []
    requires forall j :: 0 <= j < |heads| ==> Identifier(IdentifyAll(heads, src)[j]) != ""
    ensures StateApply(s, heads, shim, src).Some?
    ensures var s1 := StateApply(s, heads, shim, src).value.state;
      && s1.active.Some? && GroupMatches(s1.active.value, IdentifyAll(heads, src))
      && StateApply(s1, heads, shim, src).Some?
      && StateApply(s1, heads, shim, src).value.state.groups == s1.groups
  {
    var hs := IdentifyAll(heads, src);
    if GetMatchingGroup(s.groups, hs).None? {
      DefaultGroupThenMatches(s, heads, shim, src);
    } else {
      MatchKeepsGroups(s, heads, shim, src);
    }
    MatchKeepsGroups(StateApply(s, heads, shim, src).value.state, heads, shim, src);
  }
}
