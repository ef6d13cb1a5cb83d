/** An output as the output manager tracks it (`outputs/wlr/metahead.cpp`): the
    properties the compositor announced, the modes it offers, and the anchoring
    the configuration layer attached to it. Identity is the serial number, or a
    hash generated once and cached when there is none. */
module MetaHeads {
  import opened Wrappers
  import opened Geometry
  import opened Anchors
  import opened MetaModes
  import Seqs

  datatype MetaHead = MetaHead(
    serial: string,
    identifier: string,        // cached generated identifier, "" until generated
    make: string,
    model: string,
    name: string,
    description: string,
    modes: seq<MetaMode>,
    currentMode: Option<MetaMode>,
    position: Point,
    transform: int16,
    scale: real,
    isAvailable: bool,
    hasWlrHead: bool,          // whether a protocol head object is attached
    enabled: bool,
    adaptiveSync: int32,       // the adaptive sync state, read with `toInt`
    relativeOutput: string,
    hAnchor: HorizontalAnchor,
    vAnchor: VerticalAnchor,
    primary: bool)

  /** Where generated identifiers come from: the machine id, and the hex MD5
      digest of a string, which the model does not compute. */
  datatype IdSource = IdSource(machineId: string, digest: string -> string)

  /** A hex MD5 digest is 32 characters long, so a generated identifier is
      never empty. */
  ghost predicate HexDigests(src: IdSource) {
    forall u :: |src.digest(u)| == 32
  }

  /** The constructor's defaults. */
  function NewMetaHead(): (h: MetaHead)
    ensures h.serial == "" && h.identifier == "" && h.name == "" && h.modes == [] && h.currentMode.None?
    ensures h.position == Point(0, 0) && h.transform == 0 && h.scale == 1.0
    ensures !h.isAvailable && !h.hasWlrHead && !h.enabled && !h.primary
    ensures h.relativeOutput == "" && h.hAnchor == HNone && h.vAnchor == VNone
  {
    MetaHead("", "", "", "", "", "", [], None, Point(0, 0), 0, 1.0, false, false, false, 0, "", HNone, VNone, false)
  }

  /** The string whose digest becomes the identifier: make, model and name when
      make and model are known, otherwise the machine id and the name. */
  function UniqueName(h: MetaHead, machineId: string): string {
    if h.make != "" && h.model != "" then h.make + " " + h.model + " (" + h.name + ")"
    else machineId + "_" + h.name
  }

  /** What `getIdentifier` answers without generating anything. */
  function Identifier(h: MetaHead): string {
    if h.serial != "" then h.serial else h.identifier
  }

  /** `getIdentifier` will not generate (and so not change the head) again. */
  predicate Identified(h: MetaHead) {
    h.serial != "" || h.identifier != ""
  }

  /** `MetaHead::getIdentifier`: the serial if there is one, else the cached
      identifier, else the digest of the unique name, which is cached. */
  function GetIdentifier(h: MetaHead, src: IdSource): (r: (string, MetaHead))
    ensures r.0 == Identifier(r.1)
    ensures r.1.(identifier := h.identifier) == h
    ensures Identified(h) ==> r.1 == h
    ensures !Identified(h) ==> r.0 == src.digest(UniqueName(h, src.machineId))
  {
    if h.serial != "" then (h.serial, h)
    else if h.identifier != "" then (h.identifier, h)
    else
      var generated := src.digest(UniqueName(h, src.machineId));
      (generated, h.(identifier := generated))
  }

  /** The head after a call of `getIdentifier` (which every debug message
      naming the head makes). */
  function Identify(h: MetaHead, src: IdSource): MetaHead {
    GetIdentifier(h, src).1
  }

  /** Identifying changes at most the cached identifier. */
  lemma IdentifyFrame(h: MetaHead, src: IdSource)
    ensures Identify(h, src).(identifier := h.identifier) == h
  {
  }

  /** Identifying is idempotent: a second call returns the same identifier and
      changes nothing. */
  lemma IdentifyIdempotent(h: MetaHead, src: IdSource)
    ensures GetIdentifier(Identify(h, src), src) == (GetIdentifier(h, src).0, Identify(h, src))
  {
  }

  /** Every head of a list after `getIdentifier` was called on it: each
      head's cached identifier is what `getIdentifier` answered, nothing else
      changes, and with hex digests no identifier is empty. */
  function IdentifyAll(heads: seq<MetaHead>, src: IdSource): (r: seq<MetaHead>)
    ensures |r| == |heads|
    ensures forall i :: 0 <= i < |heads| ==> r[i] == Identify(heads[i], src)
    ensures forall i :: 0 <= i < |heads| ==> Identifier(r[i]) == GetIdentifier(heads[i], src).0
    ensures forall i :: 0 <= i < |heads| ==> r[i].(identifier := heads[i].identifier) == heads[i]
    ensures forall i :: 0 <= i < |heads| && Identified(heads[i]) ==> r[i] == heads[i]
    ensures HexDigests(src) ==> forall i :: 0 <= i < |r| ==> Identifier(r[i]) != ""
  {
    var r := seq(|heads|, i requires 0 <= i < |heads| => Identify(heads[i], src));
    assert HexDigests(src) ==> forall i :: 0 <= i < |r| ==> Identifier(r[i]) != "" by {
      if HexDigests(src) {
        forall i | 0 <= i < |r|
          ensures Identifier(r[i]) != ""
        {
          assert |src.digest(UniqueName(heads[i], src.machineId))| == 32;
        }
      }
    }
    r
  }

  /** Identifying a list twice is identifying it once. */
  lemma IdentifyAllIdempotent(heads: seq<MetaHead>, src: IdSource)
    ensures IdentifyAll(IdentifyAll(heads, src), src) == IdentifyAll(heads, src)
  {
    var r := IdentifyAll(heads, src);
    forall i | 0 <= i < |r|
      ensures Identify(r[i], src) == r[i]
    {
      IdentifyIdempotent(heads[i], src);
    }
  }

  /** `MetaHead::isBuiltIn`: generates the identifier if needed, then answers
      whether a generated identifier is cached. */
  function IsBuiltIn(h: MetaHead, src: IdSource): (r: (bool, MetaHead))
    ensures r.1 == Identify(h, src)
    ensures r.0 <==> r.1.identifier != ""
    ensures h.identifier != "" ==> r.0
    ensures h.serial != "" && h.identifier == "" ==> !r.0
  {
    var h1 := Identify(h, src);
    (h1.identifier != "", h1)
  }

  /** A freshly constructed head that is asked for its identifier before the
      compositor has sent its name or serial (as the output manager does when
      it creates the head) caches the digest of `<machine id>_`, the same for
      every such head, and from then on counts as built in. */
  lemma FreshHeadIdentifier(src: IdSource)
    ensures Identify(NewMetaHead(), src).identifier == src.digest(src.machineId + "_")
    ensures src.digest(src.machineId + "_") != "" ==> IsBuiltIn(Identify(NewMetaHead(), src), src).0
  {
    assert UniqueName(NewMetaHead(), src.machineId) == src.machineId + "_";
  }

  /** A mode that `getModeForOutputHead(width, height, refresh)` accepts. */
  predicate ModeMatches(m: MetaMode, width: int, height: int, refresh: nat) {
    GetSize(m).Some? && GetRefresh(m).Some? && SizeIsValid(m.size)
    && m.size.w == width && m.size.h == height && m.refresh == refresh
  }

  /** `MetaHead::getModeForOutputHead`: the first mode of the head with exactly
      this size and rate. */
  function GetModeForOutputHead(h: MetaHead, width: int, height: int, refresh: nat): (r: Option<MetaMode>)
    ensures r.Some? ==> r.value in h.modes && ModeMatches(r.value, width, height, refresh)
    ensures r.None? <==> forall i :: 0 <= i < |h.modes| ==> !ModeMatches(h.modes[i], width, height, refresh)
    ensures r.Some? ==> exists i :: (0 <= i < |h.modes| && h.modes[i] == r.value
      && forall j :: 0 <= j < i ==> !ModeMatches(h.modes[j], width, height, refresh))
  {
    match Seqs.FirstIndexWhere(h.modes, m => ModeMatches(m, width, height, refresh))
    case Some(i) => Some(h.modes[i])
    case None => None
  }

  /** `MetaHead::setPosition`: the origin and the current position are ignored
      (the first after naming the head in a warning). Returns whether the
      change was announced. */
  function SetPosition(h: MetaHead, p: Point, src: IdSource): (r: (MetaHead, bool))
    ensures r.1 <==> !PointIsNull(p) && p != h.position
    ensures r.0.position == (if r.1 then p else h.position)
    ensures r.0.(position := h.position, identifier := h.identifier) == h
    ensures p != h.position ==> r.0 == Identify(h, src).(position := r.0.position)
  {
    if PointIsNull(p) then (Identify(h, src), false)
    else if h.position == p then (h, false)
    else (Identify(h, src).(position := p), true)
  }

  /** `MetaHead::setPrimary`. */
  function SetPrimary(h: MetaHead, primary: bool): (r: MetaHead)
    ensures r.primary == primary && r.(primary := h.primary) == h
  {
    if h.primary == primary then h else h.(primary := primary)
  }

  /** `MetaHead::setRelativeOutput`. */
  function SetRelativeOutput(h: MetaHead, relative: string, src: IdSource): (r: MetaHead)
    ensures r.relativeOutput == relative
    ensures r.(relativeOutput := h.relativeOutput, identifier := h.identifier) == h
  {
    Identify(h, src).(relativeOutput := relative)
  }

  /** `MetaHead::setHorizontalAnchoring`: unchanged when the anchor already
      holds. */
  function SetHorizontalAnchoring(h: MetaHead, a: HorizontalAnchor, src: IdSource): (r: MetaHead)
    ensures r.hAnchor == a
    ensures r.(hAnchor := h.hAnchor, identifier := h.identifier) == h
    ensures h.hAnchor == a ==> r == h
  {
    if h.hAnchor == a then h else Identify(h, src).(hAnchor := a)
  }

  /** `MetaHead::setVerticalAnchoring`. */
  function SetVerticalAnchoring(h: MetaHead, a: VerticalAnchor, src: IdSource): (r: MetaHead)
    ensures r.vAnchor == a
    ensures r.(vAnchor := h.vAnchor, identifier := h.identifier) == h
    ensures h.vAnchor == a ==> r == h
  {
    if h.vAnchor == a then h else Identify(h, src).(vAnchor := a)
  }

  /** `MetaHead::unsetModes`. */
  function UnsetModes(h: MetaHead, src: IdSource): (r: MetaHead)
    ensures |r.modes| == |h.modes|
    ensures forall i :: 0 <= i < |h.modes| ==> !Available(r.modes[i]) && !r.modes[i].hasWlrMode
    ensures forall i :: 0 <= i < |h.modes| ==> r.modes[i].size == h.modes[i].size && r.modes[i].refresh == h.modes[i].refresh
    ensures r.(modes := h.modes, identifier := h.identifier) == h
  {
    Identify(h, src).(modes := seq(|h.modes|, i requires 0 <= i < |h.modes| => UnsetMode(h.modes[i])))
  }

  /** `MetaHead::headDisconnected`. */
  function HeadDisconnected(h: MetaHead, src: IdSource): (r: MetaHead)
    ensures !r.isAvailable && !r.hasWlrHead
    ensures r.(isAvailable := h.isAvailable, hasWlrHead := h.hasWlrHead, identifier := h.identifier) == h
  {
    Identify(h, src).(isAvailable := false, hasWlrHead := false)
  }

  /** No two modes of the list describe the same size and rate. */
  predicate NoDuplicateModes(modes: seq<MetaMode>) {
    forall i, j :: 0 <= i < j < |modes| ==> !IsSameAs(modes[i], Some(modes[j]))
  }

  /** The handler `addMode` installs for a new mode's `done`: a mode the same as
      one already listed only hands its protocol mode to that one; otherwise it
      is appended. */
  function AddCompletedMode(h: MetaHead, m: MetaMode, src: IdSource): (r: MetaHead)
    ensures (exists i :: 0 <= i < |h.modes| && IsSameAs(h.modes[i], Some(m))) ==> |r.modes| == |h.modes|
    ensures (forall i :: 0 <= i < |h.modes| ==> !IsSameAs(h.modes[i], Some(m))) ==> r.modes == h.modes + [m]
    ensures NoDuplicateModes(h.modes) ==> NoDuplicateModes(r.modes)
    ensures forall i :: 0 <= i < |h.modes| ==> r.modes[i].size == h.modes[i].size && r.modes[i].refresh == h.modes[i].refresh
  {
    match Seqs.FirstIndexWhere(h.modes, e => IsSameAs(e, Some(m)))
    case Some(i) =>
      var updated := h.modes[i := SetMode(h.modes[i], m.hasWlrMode)];
      assert forall k :: 0 <= k < |h.modes| ==> updated[k].size == h.modes[k].size && updated[k].refresh == h.modes[k].refresh;
      h.(modes := updated)
    case None => Identify(h, src).(modes := h.modes + [m])
  }

  /** The protocol events a head receives (`MetaHeadProperty::Property` with its value). */
  datatype HeadProperty =
    | AdaptiveSyncProperty(state: uint32)
    | DescriptionProperty(text: string)
    | EnabledProperty(flag: bool)
    | MakeProperty(text: string)
    | ModelProperty(text: string)
    | NameProperty(text: string)
    | PositionProperty(point: Point)
    | ScaleProperty(factor: real)
    | SerialNumberProperty(text: string)
    | TransformProperty(value: int)
    | NoHeadProperty

  /** `MetaHead::setProperty`: stores the property in its own field and
      announces it; `None` changes nothing and announces nothing. Returns the
      head and whether `propertyChanged` was emitted. */
  function SetProperty(h: MetaHead, p: HeadProperty, src: IdSource): (r: (MetaHead, bool))
    ensures r.1 <==> !p.NoHeadProperty?
    ensures p.NoHeadProperty? ==> r.0 == h
    ensures h.identifier != "" ==> r.0.identifier == h.identifier
  {
    match p
    case AdaptiveSyncProperty(v) => (Identify(h.(adaptiveSync := Int32Of(v)), src), true)
    case DescriptionProperty(t) => (Identify(h.(description := t), src), true)
    case EnabledProperty(b) => (Identify(h.(enabled := b), src), true)
    case MakeProperty(t) => (h.(make := t), true)
    case ModelProperty(t) => (h.(model := t), true)
    case NameProperty(t) => (h.(name := t), true)
    case PositionProperty(q) => (Identify(h.(position := q), src), true)
    case ScaleProperty(k) => (Identify(h.(scale := k), src), true)
    case SerialNumberProperty(t) => (Identify(h.(serial := t), src), true)
    case TransformProperty(v) => (Identify(h.(transform := Int16Of(v)), src), true)
    case NoHeadProperty => (h, false)
  }

  /** The flag and text properties land in their own field and nothing else
      changes, apart from the identifier being generated when the head has
      none. */
  lemma SetPropertyStoresSettings(h: MetaHead, p: HeadProperty, src: IdSource)
    ensures var r := SetProperty(h, p, src).0;
      && (p.AdaptiveSyncProperty? ==> r.(adaptiveSync := h.adaptiveSync, identifier := h.identifier) == h && r.adaptiveSync == Int32Of(p.state))
      && (p.DescriptionProperty? ==> r.(description := h.description, identifier := h.identifier) == h && r.description == p.text)
      && (p.EnabledProperty? ==> r.(enabled := h.enabled, identifier := h.identifier) == h && r.enabled == p.flag)
  {
    match p
    case AdaptiveSyncProperty(v) => IdentifyFrame(h.(adaptiveSync := Int32Of(v)), src);
    case DescriptionProperty(t) => IdentifyFrame(h.(description := t), src);
    case EnabledProperty(b) => IdentifyFrame(h.(enabled := b), src);
    case _ =>
  }

  /** Likewise for position, scale and transform; the transform is narrowed to
      16 bits. */
  lemma SetPropertyStoresGeometry(h: MetaHead, p: HeadProperty, src: IdSource)
    ensures var r := SetProperty(h, p, src).0;
      && (p.PositionProperty? ==> r.(position := h.position, identifier := h.identifier) == h && r.position == p.point)
      && (p.ScaleProperty? ==> r.(scale := h.scale, identifier := h.identifier) == h && r.scale == p.factor)
      && (p.TransformProperty? ==> r.(transform := h.transform, identifier := h.identifier) == h && r.transform == Int16Of(p.value))
  {
    match p
    case PositionProperty(q) => IdentifyFrame(h.(position := q), src);
    case ScaleProperty(k) => IdentifyFrame(h.(scale := k), src);
    case TransformProperty(v) => IdentifyFrame(h.(transform := Int16Of(v)), src);
    case _ =>
  }

  /** Make, model and name are stored without identifying the head; a serial
      number is stored, and an empty one lets the identifier be generated. */
  lemma SetPropertyStoresNames(h: MetaHead, p: HeadProperty, src: IdSource)
    ensures var r := SetProperty(h, p, src).0;
      && (p.MakeProperty? ==> r == h.(make := p.text))
      && (p.ModelProperty? ==> r == h.(model := p.text))
      && (p.NameProperty? ==> r == h.(name := p.text))
      && (p.SerialNumberProperty? ==> r == h.(serial := p.text) || (p.text == "" && r == Identify(h.(serial := ""), src)))
  {
  }

  /** Once a head holds a generated identifier it counts as built in, whatever
      property arrives later, its serial number included. */
  lemma BuiltInIsPermanent(h: MetaHead, p: HeadProperty, src: IdSource)
    requires IsBuiltIn(h, src).0
    ensures IsBuiltIn(SetProperty(IsBuiltIn(h, src).1, p, src).0, src).0
  {
  }

  /** `OutputManager::getOutputHead`: the first head with this identifier. */
  function GetOutputHead(heads: seq<MetaHead>, id: string): (r: Option<nat>)
    ensures r.Some? ==> r.value < |heads| && Identifier(heads[r.value]) == id
    ensures r.Some? ==> forall j :: 0 <= j < r.value ==> Identifier(heads[j]) != id
    ensures r.None? <==> forall j :: 0 <= j < |heads| ==> Identifier(heads[j]) != id
  {
    Seqs.FirstIndexWhere(heads, h => Identifier(h) == id)
  }

  /** On identified heads (every head is asked for its identifier when the
      output manager creates it) the lookup by cached identifier is the
      source's lookup by `getIdentifier`: it finds the first head whose
      `getIdentifier` answers `id`. */
  lemma GetOutputHeadGenerates(heads: seq<MetaHead>, src: IdSource, id: string)
    ensures var r := GetOutputHead(IdentifyAll(heads, src), id);
      && (r.Some? ==> r.value < |heads| && GetIdentifier(heads[r.value], src).0 == id
                      && forall j :: 0 <= j < r.value ==> GetIdentifier(heads[j], src).0 != id)
      && (r.None? <==> forall j :: 0 <= j < |heads| ==> GetIdentifier(heads[j], src).0 != id)
  {
  }
}
