# budgie-desktop-services output configuration, modelled in Dafny

This project models the part of budgie-desktop-services that decides how the
connected outputs (monitors) should be configured and then configures them.

**The batch system** (`Model` in `outputs/config/model.cpp`):
- A queue of configuration actions (`addAction`, `removeAction`, `reset`).
- `calculate`, the resolver, which turns the queue into one target state per
  output:
  1. seed each state from the output's current properties;
  2. replay the queued actions on it;
  3. derive its resulting size;
  4. outside shim mode, lay the outputs out along the horizontal chain, next
     to their anchors and on top of what they mirror;
  5. compute the bounding global space.
- `apply`, which turns the result into requests of one
  wlr-output-management-unstable-v1 output configuration.

**The snapshots of the compositor's outputs** (`MetaHead`, `MetaMode`):
- how a head gets its identifier;
- how modes become available and are deduplicated;
- how properties arrive.

**The preset and configuration layer:**
- the preset groups of `config/outputs` (`Group`, `Output`, `State`, and the
  global preferences);
- the display groups of `config/display.cpp`;
- the configuration file path.

For each of these the model covers the TOML form, the choice of the group
that fits the connected heads, the group generated when none fits, and what
applying a group does to the batch system's queue and to the heads.

Every entity is an immutable datatype and every operation a pure function.
Operations that iterate a `QMap` iterate its keys in sorted order
(`Text.SortedKeys`). An operation that mutates an object returns the new
value. Anything the source reads from outside is a parameter:
- the shim-mode switch;
- the machine id and the MD5 digest (`IdSource`);
- the environment (`XDG_CONFIG_HOME`, `HOME`);
- the live head readings.

Integer fields have the source's widths (`int16`, `int32`, `uint8`,
`uint16`, `uint32`, `uint64`): refresh rates are `uint64` (`qulonglong`),
the head's transform is `int16` (`qint16`), and its adaptive sync state is
the `int32` that `toInt` reads. Every narrowing cast in the source is written
out (`Geometry.Int32Of`, `Geometry.Uint8Of`, …). The exception is the
arithmetic on positions and sizes in the layout; see "Left out".

Behaviours of the source that the model keeps as written, and proves:
- **A switch-off clears the queue.** In `addAction` the loop variable shadows
  the new action, so the serial test is always true. Queueing
  `explicitOff(x)` therefore removes every queued action, not only those for
  `x` (`ActionStore.SwitchOffClearsQueue`). A disabled output in a group
  consequently discards the actions of every output before it
  (`ConfigGroups.DisabledOutputDiscardsEarlier`,
  `DisplayConfigs.DisplayDisabledDiscardsEarlier`).
- **The horizontal anchor is lost in TOML.** `HorizontalAnchor::toString`
  writes lower case, but `fromString` accepts only the enumerator names. A
  saved horizontal anchor therefore reads back as `None`
  (`Anchors.HorizontalRoundTripLosesAnchor`, `OutputConfigs.OutputRoundTrip`,
  `DisplayConfigs.DisplayOutputRoundTrip`).
- **`GlobalPreferences::fromString` never decides in its meta-enum
  fallback for an unscoped name.** Every plain enumerator name has already
  matched in lower case (`GlobalPreferences.MetaEnumFallbackUnreachable`).
  A scope-qualified name such as `GlobalPreferences::Left` would still be
  decided there; those names are not modelled (see "Scoped key names").
- **Matching differs between the two group kinds.**
  - `State::getMatchingGroup` falls back to the first matching group.
  - `DisplayConfig::getMatchingGroup` returns a group only when a matching
    one is preferred.
  - The auto-generated group of either kind matches the heads exactly when
    every head has a non-empty identifier
    (`ConfigStates.DefaultGroupMatchesIffIdentified`,
    `DisplayConfigs.CreatedGroupMatchesIffIdentified`). A generated
    identifier is a hex MD5 digest, never empty, so the generated group
    always matches (`ConfigStates.DefaultGroupAlwaysMatches`,
    `DisplayConfigs.CreatedGroupAlwaysMatches`).
- **Display apply anchors in shim mode too.** `DisplayConfig::apply` queues
  anchoring and writes it to the heads in shim mode as well. `Group::apply`
  queues an absolute position instead.
- **Anchors align edges.** `calculateAnchoredPosition` aligns like edges for
  `Left` and `Right`, whatever its comments say. The layout of `calculate`
  places every switched-on, non-mirroring output on the x axis from the
  horizontal chain alone. The anchor loop that follows can never move such
  an output (`Resolver.CalculateLaysOutChain`,
  `Placement.AnchorLoopMovesNothing`).
- **Sides are never swapped for protocol transforms.**
  `TargetState::updateResultingDimensions` swaps the sides only for
  transforms 90 and 270. The protocol's transforms are 0 to 7, so a seeded
  state never has its sides swapped (`TargetStates.ProtocolTransformsNeverSwap`).
- **Every head counts as built in.** The output manager asks a fresh head for
  its identifier before the compositor has sent its serial or name. Every
  head therefore caches `md5(<machine id>_)` and counts as built in from
  then on (`MetaHeads.FreshHeadIdentifier`, `MetaHeads.BuiltInIsPermanent`).
  `apply` then always requests a custom mode (`Transaction.ModeRequests`).
- **An empty `XDG_CONFIG_HOME` gives a relative path.** It is used as given
  (`ConfigPaths.EmptyXdgConfigHomeIsRelative`).

Where the header and the implementation disagree, the model follows the
implementation file:
- `TargetState::getTransform` returns `quint8` while the field is `quint16`;
- `TargetState::setTransform` takes a `quint8` while the header declares
  `quint16`, so a group's `rotation = 270` is stored as 14 and the sides
  are not swapped;
- `head->builtIn()` is called where the method is `isBuiltIn`;
- `Action::setPositionAnchor` is called where the factory is `positionAnchor`.

## Model

| member | source | states |
|---|---|---|
| ActionTypes.ActionTypeToString | src/outputs/config/enums/actiontype.hpp:27-34 | every kind has a non-empty name |
| ActionTypes.ActionTypeFromString | src/outputs/config/enums/actiontype.hpp:37-45 | an exact enumerator name reads as that kind; any result other than the `SetOnOff` fallback was spelled exactly |
| ActionTypes.ActionTypeRoundTrip | src/outputs/config/enums/actiontype.hpp:12-45 | a kind's name reads back as that kind, and distinct kinds have distinct names |
| ActionTypes.UnknownNameIsOnOff | src/outputs/config/enums/actiontype.hpp:37-45 | a string naming no kind reads as `SetOnOff` |
| Anchors.HorizontalToString | src/outputs/config/enums/anchors.hpp:22-34 | the stored name is a non-empty lower-case word |
| Anchors.HorizontalKeyToValue | src/outputs/config/enums/anchors.hpp:39-42 | the meta-enum lookup accepts exactly the enumerator names |
| Anchors.HorizontalFromString | src/outputs/config/enums/anchors.hpp:37-43 | an enumerator name reads as that anchor; anything else reads as `None` |
| Anchors.HorizontalRoundTripLosesAnchor | src/outputs/config/enums/anchors.hpp:22-43 | every horizontal anchor written by `toString` reads back as `None` |
| Anchors.VerticalToString | src/outputs/config/enums/anchors.hpp:71-87 | the stored name is a non-empty lower-case word |
| Anchors.VerticalKeyToValue | src/outputs/config/enums/anchors.hpp:100-105 | the meta-enum lookup accepts exactly the enumerator names |
| Anchors.VerticalFromString | src/outputs/config/enums/anchors.hpp:90-107 | any case of a stored name reads as that anchor; a non-`None` result was spelled as a name or an enumerator |
| Anchors.AnchorNamesDistinct | src/outputs/config/enums/anchors.hpp:22-34 | distinct anchors of either kind are written as distinct strings |
| Anchors.VerticalRoundTrip | src/outputs/config/enums/anchors.hpp:71-107 | a vertical anchor survives being written and read back |
| Actions.NewAction | src/outputs/config/action.cpp:5-8 | a new action has the given kind and serial, and every parameter at its default |
| Actions.ExplicitOn | src/outputs/config/action.cpp:10-15 | a switch action with the flag on; nothing else set |
| Actions.ExplicitOff | src/outputs/config/action.cpp:17-20 | a switch action whose flag keeps its default, off |
| Actions.MirrorOf | src/outputs/config/action.cpp:22-27 | a mirroring action carrying the mirrored output; nothing else set |
| Actions.Mode | src/outputs/config/action.cpp:29-35 | a mode action carrying size and rate; nothing else set |
| Actions.AbsolutePosition | src/outputs/config/action.cpp:37-42 | a position action carrying the point; nothing else set |
| Actions.PositionAnchor | src/outputs/config/action.cpp:44-52 | an anchoring action carrying relative output and both anchors; nothing else set |
| Actions.Scale | src/outputs/config/action.cpp:54-59 | a scale action carrying the factor; nothing else set |
| Actions.Transform | src/outputs/config/action.cpp:61-66 | a transform action carrying the 16-bit transform; nothing else set |
| Actions.AdaptiveSync | src/outputs/config/action.cpp:68-73 | an adaptive-sync action carrying the 32-bit state; nothing else set |
| Actions.Primary | src/outputs/config/action.cpp:75-80 | a primary action with the flag set; nothing else set |
| ActionStore.RemoveAction | src/outputs/config/model.cpp:58-65 | removes the first action with this serial and kind, keeping the rest in order; the queue is unchanged when none matches |
| ActionStore.RemoveFirstOfKind | src/outputs/config/model.cpp:36-53 | removes the first action of the kind, keeping the rest in order; the queue is unchanged when none has it |
| ActionStore.AddAction | src/outputs/config/model.cpp:22-56 | the new action ends the queue; a switch-off leaves only itself; otherwise the earlier actions stay in queue order, less exactly the positions `DroppedAt` names (the first with the new action's output and kind; for a primary action the first other primary action; for an absolute position the first anchoring action of any output); unique keys and a single primary action are preserved |
| ActionStore.KeptPositions | src/outputs/config/model.cpp:22-56 | the positions below `n` that no removal step of `addAction` targets, in increasing order, each exactly once |
| ActionStore.Reset | src/outputs/config/model.cpp:472-475 | the queue is empty, so it has unique keys and no second primary action |
| ActionStore.ResetThenAdd | src/outputs/config/model.cpp:22-56 | after a reset, the next action queued is the only one |
| ActionStore.KeysOfRemoveAt | src/outputs/config/model.cpp:58-65 | removing an action removes its key at the same place |
| ActionStore.RemoveActionKeys | src/outputs/config/model.cpp:58-65 | a removal by key takes exactly one copy of that key out of the queue's keys |
| ActionStore.RemoveEachEmpties | src/outputs/config/model.cpp:25-30 | removing, by key, each action of a queue from a queue with the same keys empties it |
| ActionStore.RemoveAtKeepsUnique | src/outputs/config/model.cpp:58-65 | removing an action keeps keys unique |
| ActionStore.RemoveAtKeepsAtMostOne | src/outputs/config/model.cpp:36-43 | removing an action keeps at most one action of a kind |
| ActionStore.RemoveActionDrops | src/outputs/config/model.cpp:58-65 | a removal by key drops at most one action, and only a matching one |
| ActionStore.RemoveActionUnique | src/outputs/config/model.cpp:58-65 | with unique keys, after a removal no action with that key remains |
| ActionStore.RemoveActionAtMostOne | src/outputs/config/model.cpp:58-65 | a removal by key keeps at most one action of any kind |
| ActionStore.RemoveFirstOfKindDrops | src/outputs/config/model.cpp:36-53 | a removal by kind drops at most one action, and only one of that kind |
| ActionStore.RemoveFirstOfKindUnique | src/outputs/config/model.cpp:36-53 | a removal by kind keeps keys unique |
| ActionStore.RemoveFirstOfKindAtMostOne | src/outputs/config/model.cpp:36-53 | a removal by kind keeps at most one action of any kind |
| ActionStore.RemoveFirstOfKindEmptiesKind | src/outputs/config/model.cpp:36-43 | with at most one primary action queued, the removal leaves none |
| ActionStore.RemoveActionPositions | src/outputs/config/model.cpp:31-32 | the first removal step keeps every position of the queue in order except the first one with the new action's output and kind |
| ActionStore.RemoveFirstOfKindPositions | src/outputs/config/model.cpp:35-53 | the later removal steps delete, in addition, the first position of their kind besides the one the first step deleted, keeping the order |
| ActionStore.RemovalsKeepOrder | src/outputs/config/model.cpp:22-56 | apart from a switch-off, the queue before the append is the old queue at exactly `KeptPositions`, in order |
| ActionStore.AddActionDropsFirsts | src/outputs/config/model.cpp:31-53 | the first action with the new action's output and kind is dropped; for a primary action the first primary action; for an absolute position the first anchoring action |
| ActionStore.AddActionKeepsUnique | src/outputs/config/model.cpp:22-56 | after the removals, appending the new action keeps keys unique |
| ActionStore.NoMatchInSubset | src/outputs/config/model.cpp:58-65 | a sub-queue of a queue without a key has no action with that key |
| ActionStore.UniqueAppend | src/outputs/config/model.cpp:55 | appending an action whose key is absent keeps keys unique |
| ActionStore.AddActionKeepsOnePrimary | src/outputs/config/model.cpp:35-43 | after `addAction` there is still at most one primary action |
| ActionStore.SwitchOffClearsQueue | src/outputs/config/model.cpp:24-30 | queueing a switch-off leaves only that action, whatever was queued |
| PresetQueue.AddActionDrawsFrom | src/outputs/config/model.cpp:22-56 | `addAction` keeps only actions that were queued or the new one |
| PresetQueue.EnqueueDrawsFrom | src/config/outputs/group.cpp:115-184 | a run of `addAction` calls keeps only actions that were queued or added |
| PresetQueue.EnqueueKeepsUnique | src/config/outputs/group.cpp:115-184 | a run of `addAction` calls keeps the keys unique |
| PresetQueue.EnqueueAppend | src/config/outputs/group.cpp:115-184 | two runs in a row act as one run of both |
| PresetQueue.SwitchOffDiscardsEarlier | src/config/outputs/group.cpp:119-124 | a switch-off in a run discards everything queued before it |
| PresetQueue.AnchorHeadKeepsIdentifiers | src/config/outputs/group.cpp:146-160 | writing anchoring to identified heads keeps every head identified under the same identifier |
| PresetQueue.AnchorHead | src/config/outputs/group.cpp:146-160 | the first head with this identifier gets the relative output, and the anchors when one is named or none otherwise; every other head and field is unchanged |
| PresetQueue.MarkPrimary | src/config/outputs/group.cpp:186-194 | with a primary output named, exactly the head with that identifier is primary afterwards; nothing else changes but identification |
| Text.SortedKeys | src/outputs/config/model.cpp:246 | the keys of a `QMap`, each once, in strictly increasing order |
| Text.DecimalRoundTrip | src/outputs/wlr/metamode.cpp:197 | a number formatted in decimal reads back as itself |
| Text.ToLower | src/outputs/config/enums/anchors.hpp:91 | same length; each capital A-Z becomes its small letter, every other character is kept, and no capital is left |
| Text.ToLowerIdempotent | src/outputs/config/enums/anchors.hpp:91 | lowering twice is lowering once |
| Geometry.Int16Of | src/outputs/wlr/metahead.cpp:322 | the `qint16` value congruent to the input, and the input itself when it fits |
| Geometry.Int32Of | src/config/outputs/output.cpp:24-25 | the `int32_t` value congruent to the input, and the input itself when it fits |
| Geometry.Uint8Of | src/outputs/config/targetstate.cpp:95-96 | the `quint8` value congruent to the input, and the input itself when it fits |
| Geometry.Uint16Of | src/config/outputs/output.cpp:32 | the `quint16` value congruent to the input, and the input itself when it fits |
| Geometry.Uint32Of | src/config/outputs/output.cpp:33 | the `uint32_t` value congruent to the input, and the input itself when it fits |
| Geometry.Uint64Of | src/config/outputs/output.cpp:26 | the `qulonglong` value congruent to the input, and the input itself when it fits |
| Geometry.Int64Of | src/config/outputs/output.cpp:186 | the `std::int64_t` value TOML stores, congruent to the input |
| Geometry.Uint32ThroughInt32 | src/outputs/config/targetstate.cpp:98-99 | a protocol adaptive sync state read with `toInt` (metahead.cpp:288) and cast back to `uint32_t` is unchanged |
| Geometry.Uint64ThroughInt64 | src/config/outputs/output.cpp:186 | a refresh rate written as a signed 64-bit integer reads back through line 26 unchanged |
| Geometry.TruncDiv | src/outputs/config/model.cpp:433 | C++ division: the remainder takes the sign of the dividend (also used at line 453) |
| Geometry.QRound | src/outputs/config/targetstate.cpp:186 | the nearest integer, halves away from zero |
| Geometry.ScaleSize | src/outputs/config/targetstate.cpp:186 | scaling by one keeps the size |
| Geometry.RectAt | src/outputs/config/model.cpp:387 | the rectangle has the point as its corner and the size as its extent |
| Geometry.United | src/outputs/config/model.cpp:393 | a null side is ignored; for proper rectangles the union contains both and lies inside any rectangle containing both |
| MetaModes.NewMetaMode | src/outputs/wlr/metamode.cpp:8-12 | a new mode is empty, not available, and knows its availability only with a protocol mode |
| MetaModes.Width | src/outputs/wlr/metamode.cpp:50-54 | the width of a usable size, else zero |
| MetaModes.Height | src/outputs/wlr/metamode.cpp:32-36 | the height of a usable size, else zero |
| MetaModes.GetRefresh | src/outputs/wlr/metamode.cpp:56-59 | the rate, absent exactly when it is zero |
| MetaModes.GetSize | src/outputs/wlr/metamode.cpp:61-64 | the size, absent exactly when a side is below one |
| MetaModes.IsSameAs | src/outputs/wlr/metamode.cpp:79-100 | true exactly when both modes are complete with equal size and rate |
| MetaModes.UnsetMode | src/outputs/wlr/metamode.cpp:131-136 | the protocol mode is detached and the mode unavailable; nothing else changes |
| MetaModes.SetMode | src/outputs/wlr/metamode.cpp:116-129 | a null protocol mode changes nothing; otherwise the mode is attached but unavailable; size, rate, id and preference are kept |
| MetaModes.ModeDisconnected | src/outputs/wlr/metamode.cpp:150-154 | the mode is unavailable and detached |
| MetaModes.SetPreferred | src/outputs/wlr/metamode.cpp:156-159 | only the preference changes |
| MetaModes.ModeIdRoundTrip | src/outputs/wlr/metamode.cpp:194-197 | the identifier `<w>_<h>_<refresh>` determines the size and the rate |
| MetaModes.SetProperty | src/outputs/wlr/metamode.cpp:161-202 | each property lands in its field (the protocol's `int32_t` rate converted to `qulonglong`); `done` fires exactly when a property was stored and the mode is complete, and then the mode is available with an identifier that parses back to its size and rate |
| MetaModes.SameAsIffSameId | src/outputs/wlr/metamode.cpp:79-100 | two completed modes, each carrying the identifier built at lines 194-197, are the same exactly when their identifiers are equal |
| MetaHeads.NewMetaHead | src/outputs/wlr/metahead.cpp:10-25 | the constructor's defaults |
| MetaHeads.GetIdentifier | src/outputs/wlr/metahead.cpp:54-75 | the result is the identity of the updated head; only the cached identifier may change; an identified head is unchanged; otherwise it is the digest of the unique name |
| MetaHeads.IdentifyFrame | src/outputs/wlr/metahead.cpp:54-75 | identifying changes at most the cached identifier |
| MetaHeads.IdentifyIdempotent | src/outputs/wlr/metahead.cpp:54-75 | a second call returns the same identifier and changes nothing |
| MetaHeads.IdentifyAll | src/outputs/wlr/metahead.cpp:54-75 | each head after `getIdentifier`: its identifier is what `getIdentifier` answered, only the cached identifier changed, an identified head is untouched, and with hex digests no identifier is empty |
| MetaHeads.IdentifyAllIdempotent | src/outputs/wlr/metahead.cpp:54-75 | identifying an identified list changes nothing |
| MetaHeads.IsBuiltIn | src/outputs/wlr/metahead.cpp:134-139 | the head is identified, and is built in exactly when a generated identifier is cached; a head with a serial and nothing cached is not |
| MetaHeads.FreshHeadIdentifier | src/outputs/wlr/outputmanager.cpp:14-15 | a head asked for its identifier at creation caches the digest of `<machine id>_` and from then on counts as built in |
| MetaHeads.GetModeForOutputHead | src/outputs/wlr/metahead.cpp:77-93 | the first listed mode with exactly this size and rate, and none exactly when no mode has them |
| MetaHeads.SetPosition | src/outputs/wlr/metahead.cpp:162-177 | the origin and the current position are ignored; otherwise the position changes and the change is announced; nothing else but identification changes |
| MetaHeads.SetPrimary | src/outputs/wlr/metahead.cpp:179-182 | only the primary flag changes |
| MetaHeads.SetRelativeOutput | src/outputs/wlr/metahead.cpp:352-355 | only the relative output changes, apart from identification |
| MetaHeads.SetHorizontalAnchoring | src/outputs/wlr/metahead.cpp:357-362 | only the horizontal anchor changes, and nothing when it already holds |
| MetaHeads.SetVerticalAnchoring | src/outputs/wlr/metahead.cpp:365-370 | only the vertical anchor changes, and nothing when it already holds |
| MetaHeads.UnsetModes | src/outputs/wlr/metahead.cpp:184-191 | every mode is detached and unavailable with its size and rate kept; nothing else changes |
| MetaHeads.HeadDisconnected | src/outputs/wlr/metahead.cpp:276-281 | the head is unavailable and detached; nothing else changes |
| MetaHeads.AddCompletedMode | src/outputs/wlr/metahead.cpp:195-225 | a mode the same as a listed one is not appended, a new one is; the list stays free of duplicates and every listed mode keeps its size and rate |
| MetaHeads.SetProperty | src/outputs/wlr/metahead.cpp:283-337 | a change is announced exactly for a real property; `None` changes nothing; an existing identifier is kept |
| MetaHeads.SetPropertyStoresSettings | src/outputs/wlr/metahead.cpp:286-299 | adaptive sync (the protocol's `uint32_t` read with `toInt`), description and enabled land in their own field and nothing else changes but identification |
| MetaHeads.SetPropertyStoresGeometry | src/outputs/wlr/metahead.cpp:309-324 | position, scale and the 16-bit transform land in their own field and nothing else changes but identification |
| MetaHeads.SetPropertyStoresNames | src/outputs/wlr/metahead.cpp:300-320 | make, model and name are stored without identifying; a serial is stored, and an empty one lets the identifier be generated |
| MetaHeads.BuiltInIsPermanent | src/outputs/wlr/metahead.cpp:283-337 | once a head is built in (lines 134-139), it stays built in whatever property arrives |
| MetaHeads.GetOutputHead | src/outputs/wlr/outputmanager.cpp:106-112 | the first head with this identifier, and none exactly when no head has it (applied to identified heads; see `GetOutputHeadGenerates`) |
| MetaHeads.GetOutputHeadGenerates | src/outputs/wlr/outputmanager.cpp:106-112 | on identified heads the lookup finds the first head whose `getIdentifier` answers the identifier, and none exactly when no head's does |
| TargetStates.NewTargetState | src/outputs/config/targetstate.cpp:5-8 | the constructor's defaults; the resulting size is left invalid |
| TargetStates.SetDefaultValues | src/outputs/config/targetstate.cpp:66-108 | a null head changes nothing; otherwise the head's enabled flag, position, scale, anchoring and primary flag are copied, the transform narrowed to 8 bits, adaptive sync cast to `uint32_t`, and size and rate only when the current mode knows them |
| TargetStates.SeededStateIsExclusive | src/outputs/config/targetstate.cpp:66-108 | a state created fresh (lines 5-8) and seeded from any head mirrors nothing, so never both mirrors and anchors |
| TargetStates.SetOn | src/outputs/config/targetstate.cpp:110-113 | only the on flag changes |
| TargetStates.SetDimensions | src/outputs/config/targetstate.cpp:115-118 | only the size changes |
| TargetStates.SetRefresh | src/outputs/config/targetstate.cpp:120-123 | only the rate changes |
| TargetStates.SetMirrorOf | src/outputs/config/targetstate.cpp:125-135 | mirroring something clears the relative output; a state never both mirrors and anchors |
| TargetStates.SetRelative | src/outputs/config/targetstate.cpp:137-147 | a relative output ends mirroring; a state never both mirrors and anchors |
| TargetStates.SetHorizontalAnchor | src/outputs/config/targetstate.cpp:149-152 | only the horizontal anchor changes |
| TargetStates.SetVerticalAnchor | src/outputs/config/targetstate.cpp:154-157 | only the vertical anchor changes |
| TargetStates.SetPosition | src/outputs/config/targetstate.cpp:159-162 | only the position changes |
| TargetStates.SetPrimary | src/outputs/config/targetstate.cpp:164-167 | only the primary flag changes |
| TargetStates.SetScale | src/outputs/config/targetstate.cpp:169-172 | only the scale changes |
| TargetStates.SetTransform | src/outputs/config/targetstate.cpp:174-177 | the transform is stored narrowed to a `quint8` (270 becomes 14, values below 256 are kept); nothing else changes |
| TargetStates.SetAdaptiveSync | src/outputs/config/targetstate.cpp:179-182 | only adaptive sync changes |
| TargetStates.UpdateResultingDimensions | src/outputs/config/targetstate.cpp:184-195 | transforms 0 and 180 keep the size, 90 and 270 swap it, any other scales it; nothing else changes |
| TargetStates.ProtocolTransformsNeverSwap | src/outputs/config/targetstate.cpp:184-195 | for the protocol's transforms 0 to 7 the sides are never swapped, and at scale 1 the size is kept |
| PendingStates.Get | src/outputs/config/model.cpp:248-249 | the stored state, none for a null or absent key |
| PendingStates.Touch | src/outputs/config/model.cpp:248 | `operator[]` inserts a null state for a missing key and changes no state |
| PendingStates.ExtendsTransitive | src/outputs/config/model.cpp:298-377 | the passes' "only positions change" relation composes |
| PendingStates.ExtendsKeepsExclusive | src/outputs/config/model.cpp:298-377 | changing positions keeps every state exclusive |
| PendingStates.ExtendsKeepsEligible | src/outputs/config/model.cpp:298-377 | changing positions does not change which outputs are on and not mirroring |
| Replay.SeedState | src/outputs/config/model.cpp:228-229 | the seeded state carries the head's identifier, enabled flag, position, scale, 8-bit transform, `uint32_t` adaptive sync, relative output, both anchors and primary flag, the current mode's size and rate where known (else zero), no resulting size, and mirrors nothing |
| Replay.SeedKeepsAnnouncedAdaptiveSync | src/outputs/config/targetstate.cpp:98-99 | the adaptive sync state announced to a head (metahead.cpp:287-288) is the one its seeded state carries |
| Replay.IdsOf | src/outputs/config/model.cpp:223-233 | exactly the identifiers of the heads |
| Replay.Seed | src/outputs/config/model.cpp:221-233 | one known state per head identifier and nothing else |
| Replay.SeedLastWins | src/outputs/config/model.cpp:232 | a later head with the same identifier replaces an earlier one |
| Replay.ApplyAction | src/outputs/config/model.cpp:254-287 | each kind sets exactly its fields (gamma none, primary only sets, a transform narrowed to `quint8` by the setter); an anchoring action sets the relative output and, naming one, ends mirroring; a mirror action sets the mirrored output and, naming one, drops the relative; exclusivity is kept |
| Replay.ActionsFor | src/outputs/config/model.cpp:235-243 | the queue with every action of another output deleted: the actions at exactly the positions `PositionsFor` lists, in queue order |
| Replay.PositionsFor | src/outputs/config/model.cpp:235-243 | the positions of the queue holding actions of one output, in increasing order, each exactly once |
| Replay.ApplyAll | src/outputs/config/model.cpp:253-288 | replaying keeps the serial and exclusivity |
| Replay.LastOfKind | src/outputs/config/model.cpp:253-288 | an action of the kind at some position with no action of the kind after it; none exactly when the list has no action of the kind |
| Replay.ApplyAllLastModeWins | src/outputs/config/model.cpp:253-261 | the on flag, size and rate are those of the last action that sets them, else the seeded ones |
| Replay.LastWhere | src/outputs/config/model.cpp:246-287 | the last action with the property, with none with it after; none iff no action has it |
| Replay.ApplyAllLastLinkWins | src/outputs/config/model.cpp:274-280 | the mirrored and the relative output are those of the last action deciding them, else seeded; an output mirrors after replay iff the last such action mirrors a named output |
| Replay.ApplyAllLastPlacementWins | src/outputs/config/model.cpp:274-284 | position and anchors are those of the last action that sets them, else the seeded ones |
| Replay.ApplyAllLastPropertyWins | src/outputs/config/model.cpp:262-273 | scale and adaptive sync are the last set, the transform is the last set narrowed to `quint8`; primary is set by any primary action |
| Replay.ReplayStep | src/outputs/config/model.cpp:246-289 | one step of the replay loop stores the serial's replayed state |
| Replay.ReplayKeysDomain | src/outputs/config/model.cpp:246-249 | the loop adds a null entry for each serial without one and keeps the others |
| Replay.ReplayKeysValues | src/outputs/config/model.cpp:246-289 | each visited serial ends with its own actions replayed on its state |
| Replay.ReplayKeysEffect | src/outputs/config/model.cpp:246-289 | the whole loop: the domain grows by the serials, each replayed, the rest kept |
| Replay.ReplayActions | src/outputs/config/model.cpp:235-289 | the replay touches exactly the queued serials, each with its own actions, and keeps every other state |
| Replay.ReplayKeepsShape | src/outputs/config/model.cpp:235-289 | replaying keeps every state exclusive and every known state known |
| Replay.UpdateAll | src/outputs/config/model.cpp:291-296 | every known state gets its resulting size, null states stay null |
| HorizontalChain.RightOfMap | src/outputs/config/model.cpp:493-503 | the outputs anchored right of another, not above or below it, each mapped to the relative of its last such action (`QMap::insert` replaces) |
| HorizontalChain.ReferencedByMap | src/outputs/config/model.cpp:493-503 | the outputs something is anchored right of, each mapped to the output of the last such action naming it (`QMap::insert` replaces) |
| HorizontalChain.Relatives | src/outputs/config/model.cpp:493-503 | exactly the relatives of those anchors |
| HorizontalChain.FirstUnanchored | src/outputs/config/model.cpp:519-526 | empty when every key is anchored; otherwise the key at the first position anchored to nothing |
| HorizontalChain.Leftmost | src/outputs/config/model.cpp:509-526 | a non-empty start is anchored to nothing and is a relative or an output; it is such a relative or the first unanchored output key, and the latter whenever no relative is unanchored |
| HorizontalChain.Walk | src/outputs/config/model.cpp:528-541 | the walk visits distinct non-empty names, each the successor of the previous, and starts at `current` unless it is empty or visited |
| HorizontalChain.Unvisited | src/outputs/config/model.cpp:543-548 | the keys not visited, in order and without repeats |
| HorizontalChain.WalkFromLeftmost | src/outputs/config/model.cpp:528-541 | the walk from the start has no repeats and follows the anchors |
| HorizontalChain.WalkFromLeftmostKnown | src/outputs/config/model.cpp:509-541 | every name on the walk is an output or named by an anchoring action |
| HorizontalChain.BuildHorizontalChain | src/outputs/config/model.cpp:485-550 | the chain has no repeats, holds every output, and only known names |
| HorizontalChain.ChainPartsDisjoint | src/outputs/config/model.cpp:543-548 | the walk followed by the unvisited keys has no repeats |
| HorizontalChain.WalkedNamesAreKnown | src/outputs/config/model.cpp:509-541 | names reached from the start along the anchors are known |
| Placement.CalculateAnchoredPosition | src/outputs/config/model.cpp:412-470 | the position relative to the other output for each anchor, centring by half the size difference rounded toward zero; a null state gives the origin |
| Placement.MirrorSharesPosition | src/outputs/config/model.cpp:435-438 | a mirroring output without anchors takes the mirrored output's position on both axes (the y case at lines 463-466) |
| Placement.WidthFrame | src/outputs/config/model.cpp:339-340 | the chain width depends only on the states of the names it sums |
| Placement.PlaceChainFrame | src/outputs/config/model.cpp:329-342 | laying out the chain only changes positions and adds null entries; it positions exactly the eligible outputs on the chain |
| Placement.ChainStep | src/outputs/config/model.cpp:332-341 | one step changes at most one position and adds at most one entry |
| Placement.PlaceChainExtends | src/outputs/config/model.cpp:329-342 | the chain loop only changes positions and adds the chain's names |
| Placement.PlaceChainPositioned | src/outputs/config/model.cpp:329-342 | the loop records exactly the eligible outputs on the chain as positioned |
| Placement.PlaceChainFromOrigin | src/outputs/config/model.cpp:329-342 | from the origin, each eligible output lands at the total width before it |
| Placement.PlaceChainPositions | src/outputs/config/model.cpp:329-342 | each eligible output lands at `(x + w, 0)`, `w` the width of the eligible outputs before it |
| Placement.AnchorSweep | src/outputs/config/model.cpp:348-360 | a sweep only adds outputs of the anchor map to the positioned set, and reports progress exactly when it adds one |
| Placement.AnchorSweepPlacesNothing | src/outputs/config/model.cpp:346-361 | when every eligible output is positioned, a sweep only inserts nulls and makes no progress |
| Placement.AnchorLoopMovesNothing | src/outputs/config/model.cpp:344-361 | after the chain, the anchor loop moves no output |
| Placement.MirrorStep | src/outputs/config/model.cpp:363-376 | one step inserts the two names it looks up and changes at most the position of the mirroring output |
| Placement.MirrorStepExtends | src/outputs/config/model.cpp:363-376 | a step changes only a mirroring output's position |
| Placement.MirrorPass | src/outputs/config/model.cpp:362-376 | the pass keeps every entry |
| Placement.MirrorPassFrame | src/outputs/config/model.cpp:362-376 | the pass changes only positions, only of mirroring outputs, only of its keys |
| Placement.MirrorPassCopiesPosition | src/outputs/config/model.cpp:362-376 | an unanchored, unpositioned mirroring output takes the position of the output it mirrors |
| Resolver.MirrorMap | src/outputs/config/model.cpp:301-306 | exactly the outputs with a mirroring action |
| Resolver.AnchorMap | src/outputs/config/model.cpp:309-316 | exactly the outputs with an anchoring action |
| Resolver.ChainPlaced | src/outputs/config/model.cpp:325-342 | the chain step only changes positions and positions every eligible output |
| Resolver.NullsExtend | src/outputs/config/model.cpp:344-361 | adding null entries only is a case of changing positions only |
| Resolver.AnchorPlaced | src/outputs/config/model.cpp:344-361 | after the chain, the anchor step only adds null entries |
| Resolver.Layout | src/outputs/config/model.cpp:298-377 | the whole placement only changes positions and adds null entries |
| Resolver.OutputRect | src/outputs/config/model.cpp:385-387 | the output's rectangle at its position with its resulting size |
| Resolver.Bounds | src/outputs/config/model.cpp:379-396 | a rectangle exactly when some output is switched on |
| Resolver.BoundsAreTight | src/outputs/config/model.cpp:379-396 | with positive sizes, the bounds contain every switched-on output and lie inside every rectangle that contains them |
| Resolver.GlobalSpace | src/outputs/config/model.cpp:405-409 | the zero rectangle without a switched-on output; otherwise non-empty bounds or the zero rectangle |
| Resolver.Prepared | src/outputs/config/model.cpp:221-296 | every head has a known state after seeding, replay and sizing; all states are exclusive |
| Resolver.Calculate | src/outputs/config/model.cpp:214-410 | placement only changes positions of the prepared states; shim mode places nothing; the global space is that of the placed states |
| Resolver.CalculateCoversHeads | src/outputs/config/model.cpp:214-410 | every head has a known state after a calculation, so the validation loop of `apply` (lines 89-103) never stops it |
| Resolver.CalculateKeepsExclusive | src/outputs/config/model.cpp:214-410 | no output both mirrors and anchors after a calculation |
| Resolver.ChainPlacesEligible | src/outputs/config/model.cpp:325-342 | an eligible output on the chain is placed at the width of the eligible outputs before it |
| Resolver.ChainPlacedUnfold | src/outputs/config/model.cpp:325-342 | the chain step lays out the horizontal chain from the origin |
| Resolver.LaterPassesKeep | src/outputs/config/model.cpp:344-376 | the anchor and mirror passes leave an eligible output where the chain put it |
| Resolver.LayoutPlacesChain | src/outputs/config/model.cpp:298-377 | the layout puts each eligible output at its chain position |
| Resolver.CalculateLaysOutChain | src/outputs/config/model.cpp:214-410 | outside shim mode every switched-on, non-mirroring output lies on the x axis flush right of the eligible outputs before it on the chain |
| Resolver.GlobalSpaceBoundsOutputs | src/outputs/config/model.cpp:379-409 | with positive sizes the global space is the smallest rectangle containing every switched-on output |
| Resolver.Serialise | src/outputs/config/result.cpp:38-50 | the horizontal anchor is written so it reads back as none, the vertical anchor survives, the transform is narrowed to 8 bits |
| Resolver.ToVariantMap | src/outputs/config/result.cpp:24-55 | defined exactly when no state is null; one entry per output with its serialised state; the global space as x, y, width, height |
| Transaction.ModeRequests | src/outputs/config/model.cpp:153-171 | no mode without a size and a rate; an existing matching mode when the head is not built in, else a custom mode with the rate cast to `int32_t` |
| Transaction.OutputRequests | src/outputs/config/model.cpp:119-181 | nothing without a protocol head; a switched-off output is disabled; a switched-on one is enabled and given position, scale, 8-bit transform and adaptive sync in that order; all for that output |
| Transaction.RequestsOf | src/outputs/config/model.cpp:106-116 | requests only for an output with a known state and a head |
| Transaction.Requests | src/outputs/config/model.cpp:105-182 | every request is for a visited output with a known state and a head |
| Transaction.MissingHead | src/outputs/config/model.cpp:89-103 | the first head without a state, none exactly when every head has one |
| Transaction.ApplyResult | src/outputs/config/model.cpp:86-211 | apply stops exactly when some head has no state |
| Transaction.Apply | src/outputs/config/model.cpp:67-212 | after the recalculation the configuration is always submitted |
| Transaction.ForOutput | src/outputs/config/model.cpp:105-182 | exactly the requests addressed to one output |
| Transaction.ForOutputAppend | src/outputs/config/model.cpp:105-182 | filtering distributes over concatenation |
| Transaction.RequestsPerOutput | src/outputs/config/model.cpp:105-182 | each visited output gets exactly the requests its own state and head call for, and nothing else is addressed to it |
| Toml.FindString | src/config/outputs/output.cpp:23 | a string exactly when the key holds one |
| Toml.FindInteger | src/config/outputs/output.cpp:24-28 | an integer exactly when the key holds one |
| Toml.FindFloat | src/config/outputs/output.cpp:36 | a float exactly when the key holds one |
| Toml.FindBool | src/config/outputs/output.cpp:34-35 | a boolean exactly when the key holds one |
| Toml.FindArray | src/config/outputs/group.cpp:23 | an array exactly when the key holds one |
| Toml.FindStrings | src/config/outputs/group.cpp:15 | a string list exactly when the key holds an array of strings |
| OutputConfigs.OutputFromToml | src/config/outputs/output.cpp:22-37 | defined exactly when the four required keys hold the right types; those are read with their casts, every missing key gives the default |
| OutputConfigs.MinimalTableGivesDefaults | src/config/outputs/output.cpp:6-37 | a table with only the required keys reads as the default output with those four fields |
| OutputConfigs.OutputToToml | src/config/outputs/output.cpp:179-204 | the required keys always; the position only in shim mode, the anchoring only outside it |
| OutputConfigs.CommonFields | src/config/outputs/output.cpp:183-201 | the keys written in both modes include the required ones and no placement key |
| OutputConfigs.ModeFieldsRoundTrip | src/config/outputs/output.cpp:183-186 | identifier, width, height and refresh as written read back unchanged through lines 23-26 |
| OutputConfigs.PropertyFieldsRoundTrip | src/config/outputs/output.cpp:197-199 | scale, rotation and adaptive sync as written read back unchanged through lines 32-33 and 36 |
| OutputConfigs.FlagFieldsRoundTrip | src/config/outputs/output.cpp:200-201 | primary and disabled as written read back unchanged through lines 34-35 |
| OutputConfigs.PositionRoundTrip | src/config/outputs/output.cpp:188-190 | the position read back through lines 27-28 is the saved one in shim mode and the origin otherwise |
| OutputConfigs.AnchoringRoundTrip | src/config/outputs/output.cpp:191-195 | read back through lines 29-31, the relative output and vertical anchor survive only outside shim mode; the horizontal anchor never survives |
| OutputConfigs.OutputRoundTrip | src/config/outputs/output.cpp:179-204 | a saved output read back by the TOML constructor (lines 22-37) is the output with what the mode did not write reset, and the horizontal anchor lost |
| OutputConfigs.OutputRoundTripKeepsFields | src/config/outputs/output.cpp:179-204 | outside shim mode, reading back (lines 22-37) keeps everything but the position and the horizontal anchor |
| OutputConfigs.UpdateFromHead | src/config/outputs/output.cpp:206-223 | nothing without a head; otherwise every field but the identifier comes from the head, `disabled` the negation of enabled |
| ConfigGroups.ParseOutputs | src/config/outputs/group.cpp:23-29 | defined exactly when every element is an acceptable output table; one output per element |
| ConfigGroups.GroupFromToml | src/config/outputs/group.cpp:12-30 | defined exactly when name and primary output are strings and the outputs parse; missing optional keys give the defaults |
| ConfigGroups.GroupToToml | src/config/outputs/group.cpp:210-234 | name, primary output and the output tables are written |
| ConfigGroups.OutputTablesRoundTrip | src/config/outputs/group.cpp:224-231 | the written output tables parse back (lines 23-29) as the reloaded outputs |
| ConfigGroups.GroupRoundTrip | src/config/outputs/group.cpp:210-234 | a saved group reads back (lines 12-30) whole, its outputs as reloaded |
| ConfigGroups.GetOutputForIdentifier | src/config/outputs/group.cpp:201-208 | the first output with the identifier, none exactly when there is none |
| ConfigGroups.OutputActions | src/config/outputs/group.cpp:115-184 | a disabled output only switches off; every action is for the output and none sets the primary |
| ConfigGroups.EnabledOutputActions | src/config/outputs/group.cpp:126-183 | on, mode, placement (position in shim mode, anchor when a relative is named), scale, transform, adaptive sync, with the output's values |
| ConfigGroups.GroupActionsAppend | src/config/outputs/group.cpp:115-184 | the actions of two runs of outputs concatenate |
| ConfigGroups.GroupActionsTargetOutputs | src/config/outputs/group.cpp:115-184 | every action is for one of the group's outputs and none sets the primary |
| ConfigGroups.DisabledOutputDiscardsEarlier | src/config/outputs/group.cpp:119-124 | a disabled output wipes the actions of every output before it |
| ConfigGroups.LastDisabledLeavesOnlyOff | src/config/outputs/group.cpp:119-124 | a disabled last output leaves only its switch-off |
| ConfigGroups.GroupQueueShape | src/config/outputs/group.cpp:96-184 | the queue has unique keys, no primary action, and only the group's outputs |
| ConfigGroups.GroupHeads | src/config/outputs/group.cpp:137-162 | in shim mode the heads are untouched; a head no enabled output names is untouched |
| ConfigGroups.GroupHeadsWritesAnchoring | src/config/outputs/group.cpp:137-162 | outside shim mode, on identified heads, the head found for an output's identifier gets the anchoring of the last enabled output naming it (relative and anchors, or none for an empty relative); identifiers are kept |
| ConfigGroups.ApplyGroupWritesAnchoring | src/config/outputs/group.cpp:137-162 | the same anchoring holds on the heads `Group::apply` leaves behind |
| ConfigGroups.ApplyGroup | src/config/outputs/group.cpp:83-199 | nothing without outputs; otherwise the rebuilt queue is submitted and exactly the primary output's head is primary |
| ConfigStates.NoMatching | src/config/outputs/state.cpp:171-200 | no matching groups exactly when no group matches |
| ConfigStates.FirstMatching | src/config/outputs/state.cpp:171-200 | the matching groups start with the first group that matches |
| ConfigStates.FirstPreferredMatching | src/config/outputs/state.cpp:171-210 | the first preferred matching group, none exactly when there is none |
| ConfigStates.MatchingGroupsStep | src/config/outputs/state.cpp:172-199 | the match loop keeps matching groups in order and drops the rest |
| ConfigStates.NoPreferredMatching | src/config/outputs/state.cpp:202-210 | no preferred match exactly when no group is both preferred and matching |
| ConfigStates.FirstPreferredMatchingFound | src/config/outputs/state.cpp:202-210 | a preferred match is the first group both preferred and matching |
| ConfigStates.GetMatchingGroup | src/config/outputs/state.cpp:156-219 | none exactly when nothing matches; else the first preferred match, or failing that the first match |
| ConfigStates.NonEmptyNamesSound | src/config/outputs/state.cpp:139-146 | every name is a non-empty identifier of some head |
| ConfigStates.NonEmptyNamesComplete | src/config/outputs/state.cpp:139-146 | every head with an identifier contributes it |
| ConfigStates.NonEmptyNamesLength | src/config/outputs/state.cpp:139-146 | one name per head exactly when every head has an identifier |
| ConfigStates.DefaultOutput | src/config/outputs/state.cpp:142-145 | an enabled default output under the identifier |
| ConfigStates.CreateDefaultGroup | src/config/outputs/state.cpp:124-154 | none exactly when no head has an identifier; else the identified heads in order, each with an enabled default output, named after them, the first as primary |
| ConfigStates.DefaultGroupMatchesIffIdentified | src/config/outputs/state.cpp:124-154 | for any identifier source, the default group matches its heads under the test of lines 156-200 exactly when every head has an identifier (with hex digests always: `DefaultGroupAlwaysMatches`) |
| ConfigStates.DefaultGroupAlwaysMatches | src/config/outputs/state.cpp:124-154 | with hex digests the default group exists for any heads and matches them |
| ConfigStates.StateApply | src/config/outputs/state.cpp:48-63 | on the identified heads, a matching group is applied and made active; otherwise the default group is added, applied and made active; nothing happens when no head has an identifier |
| ConfigStates.MatchKeepsGroups | src/config/outputs/state.cpp:48-63 | with a match the groups are kept and the active group matches |
| ConfigStates.DefaultGroupThenMatches | src/config/outputs/state.cpp:48-63 | with every head identified and no group matching, the default group (lines 124-154) is active afterwards and matches |
| ConfigStates.ApplyAddsDefaultOnce | src/config/outputs/state.cpp:48-63 | with every head identified, an apply leaves a matching active group, and a second apply adds no further group |
| DisplayConfigs.DisplayOutputFromToml | src/config/display.cpp:368-388 | defined exactly when the four required keys hold the right types; missing keys give the defaults |
| DisplayConfigs.DisplayOutputToToml | src/config/display.cpp:567-587 | the required keys and every field, the relative output only when it is not empty |
| DisplayConfigs.DisplayModeFieldsRoundTrip | src/config/display.cpp:571-574 | identifier, width, height and refresh as written read back unchanged through lines 370-373 |
| DisplayConfigs.DisplayAnchoringRoundTrip | src/config/display.cpp:577-579 | read back through lines 376-380, the relative output and vertical anchor survive and the horizontal anchor reads as none |
| DisplayConfigs.DisplayPropertyFieldsRoundTrip | src/config/display.cpp:581-584 | scale, rotation and both flags as written read back unchanged through lines 382-385 |
| DisplayConfigs.DisplayOutputRoundTrip | src/config/display.cpp:567-587 | a saved configuration read back (lines 368-388) is whole except its horizontal anchor |
| DisplayConfigs.ParseDisplayOutputs | src/config/display.cpp:365-388 | defined exactly when every element is an acceptable table; one configuration per element |
| DisplayConfigs.DisplayGroupFromToml | src/config/display.cpp:356-389 | defined exactly when name and primary output are strings and the outputs parse; missing optional keys give the defaults |
| DisplayConfigs.DisplayGroupToToml | src/config/display.cpp:443-462 | name, primary output and the output tables are written |
| DisplayConfigs.DisplayOutputTablesRoundTrip | src/config/display.cpp:455-457 | the written tables parse back (lines 365-388) without horizontal anchors |
| DisplayConfigs.DisplayGroupRoundTrip | src/config/display.cpp:443-462 | a saved group reads back (lines 356-389) whole, its configurations without horizontal anchors |
| DisplayConfigs.GetConfigForIdentifier | src/config/display.cpp:411-421 | the first configuration with the identifier, none exactly when there is none |
| DisplayConfigs.FirstPreferredMatching | src/config/display.cpp:261-293 | the first preferred matching group, none exactly when there is none |
| DisplayConfigs.MatchingGroupsStep | src/config/display.cpp:262-284 | the match loop keeps matching groups in order and drops the rest |
| DisplayConfigs.NoPreferredMatching | src/config/display.cpp:286-293 | no preferred match exactly when no group is both preferred and matching |
| DisplayConfigs.FirstPreferredMatchingFound | src/config/display.cpp:286-293 | a preferred match is the first group both preferred and matching |
| DisplayConfigs.GetMatchingGroup | src/config/display.cpp:255-296 | only a preferred matching group is returned, the first; none exactly when there is none, with no fallback to the first match |
| DisplayConfigs.DisplayOutputActions | src/config/display.cpp:79-138 | a disabled configuration only switches off; every action is for the identifier and none sets the primary |
| DisplayConfigs.EnabledDisplayActions | src/config/display.cpp:87-138 | on, mode, anchor when a relative is named, scale, 8-bit rotation, adaptive sync as one or zero |
| DisplayConfigs.DisplayActionsAppend | src/config/display.cpp:72-139 | the actions of two runs of identifiers concatenate |
| DisplayConfigs.DisplayActionsTargetIdentifiers | src/config/display.cpp:72-139 | every action is for a listed identifier with a configuration, none sets the primary |
| DisplayConfigs.DisplayQueueShape | src/config/display.cpp:52-139 | the queue has unique keys, no primary action, and only configured listed identifiers |
| DisplayConfigs.DisplayDisabledDiscardsEarlier | src/config/display.cpp:82-86 | a disabled configuration wipes the actions of every identifier listed before it |
| DisplayConfigs.DisplayHeads | src/config/display.cpp:96-120 | a head no enabled listed configuration names is untouched |
| DisplayConfigs.DisplayHeadsWritesAnchoring | src/config/display.cpp:96-120 | on identified heads, the head found for a listed identifier with an enabled configuration gets that configuration's anchoring, in shim mode too; identifiers are kept |
| DisplayConfigs.DisplayApplyWritesAnchoring | src/config/display.cpp:96-120 | with hex digests, the heads `DisplayConfig::apply` leaves behind carry that anchoring |
| DisplayConfigs.DisplayApply | src/config/display.cpp:23-154 | without a preferred match nothing changes; otherwise the group becomes active, the rebuilt queue is submitted and exactly the primary output's head is primary |
| DisplayConfigs.HeadConfigsSound | src/config/display.cpp:178-218 | every generated configuration is that of a configurable head |
| DisplayConfigs.HeadConfigsComplete | src/config/display.cpp:178-218 | every configurable head has its configuration generated |
| DisplayConfigs.CreateDisplayGroupForState | src/config/display.cpp:156-221 | none exactly without heads; else a preferred group listing every head's identifier, named after them, the first as primary |
| DisplayConfigs.CreatedGroupConfigs | src/config/display.cpp:178-218 | the generated group configures exactly the configurable heads |
| DisplayConfigs.CreatedGroupMatchesIffIdentified | src/config/display.cpp:156-221 | for any identifier source, the generated group matches the heads under the test of lines 255-284 exactly when every head has a non-empty identifier (with hex digests always: `CreatedGroupAlwaysMatches`) |
| DisplayConfigs.CreatedGroupAlwaysMatches | src/config/display.cpp:156-221 | with hex digests the generated group matches the heads it was made from |
| GlobalPreferences.NewPreferences | src/config/outputs/global_preferences.cpp:6-10 | no automatic placement by default |
| GlobalPreferences.PositionToString | src/config/outputs/global_preferences.cpp:22-37 | the stored name is a non-empty lower-case word |
| GlobalPreferences.KeyLowersToName | src/config/outputs/global_preferences.hpp:12-18 | each enumerator name lowers to the stored name |
| GlobalPreferences.PositionKeyToValue | src/config/outputs/global_preferences.cpp:49-54 | the meta-enum lookup accepts exactly the enumerator names, each of which lowers to a stored name |
| GlobalPreferences.PositionFromString | src/config/outputs/global_preferences.cpp:39-56 | any case of a stored name reads as that preference; a result other than `None` was such a spelling |
| GlobalPreferences.MetaEnumFallbackUnreachable | src/config/outputs/global_preferences.cpp:48-54 | for unscoped names the result depends only on the lowered string: the fallback decides nothing |
| GlobalPreferences.PositionRoundTrip | src/config/outputs/global_preferences.cpp:22-56 | a preference survives being written and read back |
| GlobalPreferences.FromStringCaseInsensitive | src/config/outputs/global_preferences.cpp:39-56 | a stored name in any letter case reads as that preference; anything else reads as `None` |
| ConfigPaths.Append | src/config/utils.cpp:14-25 | POSIX `operator/=`: an absolute right side replaces, else a separator is added only after a file name |
| ConfigPaths.GetConfigPath | src/config/utils.cpp:12-26 | a path exactly when one of the two variables is set |
| ConfigPaths.BelowDirectory | src/config/utils.cpp:25 | below a directory with a file name the name lands in `budgie-desktop/` |
| ConfigPaths.XdgConfigHomePath | src/config/utils.cpp:12-25 | with `XDG_CONFIG_HOME` set to a directory, the path is `budgie-desktop/<name>` inside it, whatever `HOME` is |
| ConfigPaths.HomePath | src/config/utils.cpp:17-25 | without `XDG_CONFIG_HOME`, `HOME/.config` stands in |
| ConfigPaths.SuffixBelowAnyDirectory | src/config/utils.cpp:25 | below any directory a relative name ends up as `budgie-desktop/<name>` |
| ConfigPaths.RelativeNameSuffix | src/config/utils.cpp:12-26 | a relative name always ends the path as `budgie-desktop/<name>` |
| ConfigPaths.AbsoluteNameIsKept | src/config/utils.cpp:25 | an absolute name is the whole path |
| ConfigPaths.EmptyXdgConfigHomeIsRelative | src/config/utils.cpp:13-16 | an empty `XDG_CONFIG_HOME` gives a path relative to the working directory |

## Left out

- **Wayland protocol plumbing.** `outputs/wlr/configuration.cpp`,
  `configurationhead.cpp`, `head.cpp` and `mode.cpp` are not part of this
  model. The requests of one output configuration are a list, and
  submitting it is one outcome.
- **The outcome of a submitted configuration.** Success, failure and
  cancellation, the signals, and the save on success happen asynchronously
  in the compositor.
- **The output manager's event handling.** Head and mode creation,
  `currentModeChanged`, `setHead` and the D-Bus services only wire the
  modelled operations to events and buses.
- **File I/O.** Reading and writing the configuration files
  (`State::deserialize`, `State::save`, `DisplayConfig::parseConfig`,
  `saveState`, `ensureConfigPathExists`) is left out, and so are TOML text
  formatting and logging. The TOML documents are modelled as values.
- **The MD5 digest and the machine id.** They are parameters (`IdSource`);
  their values are not computed. Where a property needs it, the digest is
  required to be 32 characters long, as a hex MD5 digest is
  (`MetaHeads.HexDigests`).
- **Floating point.** Scale is a real number. `wl_fixed` conversion and
  double rounding are not modelled.
- **Integer overflow of positions.** Positions and widths added in the
  layout are unbounded integers. `QPoint` arithmetic would wrap at 32 bits
  only for layouts wider than two billion pixels.
- **String ordering.** `QMap<QString, …>` orders by UTF-16 code units. The
  model orders by code points, which differ only outside the basic
  multilingual plane.
- **Case folding.** `QString::toLower` is modelled on ASCII letters. Every
  compared name is ASCII.
- **Iteration order of the relatives set.** The order of a `QSet`
  (`model.cpp:512`) is unspecified. The model picks the start of the chain
  by an unspecified choice among the valid ones.
- **Null versus empty strings.** A null and an empty `QString` are both the
  empty string.
- **Scoped key names.** `QMetaEnum::keyToValue` also accepts the
  scope-qualified names (`Type::Left`). Only the plain enumerator names are
  modelled. For `GlobalPreferences::fromString` such a name
  (`GlobalPreferences::Left`) lowers to no stored name and would be decided
  by the meta-enum fallback.
- **Setters and getters.** Plain setters and getters of `Group`, `Output`,
  `DisplayGroup`, `DisplayGroupOutputConfig`, `GlobalPreferences` and
  `State` are datatype fields and record updates. They have no members of
  their own.
- **`std::string` overloads.** The overloads of the anchor and preference
  conversions are the same as the `QString` ones.
- **Diagnostic and debug members.** `DisplayConfig::getActiveGroup`,
  `debugOutput`, `MetaMode::toDBusStruct` and `registerDbusService` are not
  modelled.
- **Calls that abort the process.**
  - `qFatal` in `getConfigPath` is answered with `None`.
  - The empty-list `first()` in `createDefaultGroup` is answered with `None`.
  - The null dereferences in `State::apply` and `Result::toVariantMap` are
    answered with `None`.
- **A null output manager.** Every operation that checks the manager for
  null returns early before doing anything. The model assumes the manager
  exists.
- HorizontalChain.Leftmost: does not say which unanchored relative starts
  the chain when there are several, because the hash-set iteration order
  that picks among them is unspecified.
- ConfigStates.NonEmptyNames: its own ensures bounds only the length. Its
  contents are stated by `NonEmptyNamesSound`, `NonEmptyNamesComplete` and
  `NonEmptyNamesLength`.
- DisplayConfigs.HeadConfigs: its own ensures bounds only the length. Its
  contents are stated by `HeadConfigsSound` and `HeadConfigsComplete`.
- Placement.MirrorPass: its own ensures states only that entries are kept.
  Its effect is stated by `MirrorPassFrame` and `MirrorPassCopiesPosition`.
- Placement.MirrorPass: does not record the moved outputs as positioned.
  No later step of the loop can meet the same output again.
- Transaction.Apply: models the submission, not the compositor's answer to
  it.
