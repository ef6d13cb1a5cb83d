/** The state an output should end up in (`outputs/config/targetstate.cpp`):
    seeded from the output's current properties, then changed by the queued
    actions, then placed by the resolver. */
module TargetStates {
  import opened Wrappers
  import opened Geometry
  import opened Anchors
  import opened MetaModes
  import opened MetaHeads

  datatype TargetState = TargetState(
    serial: string,
    on: bool,
    dimensions: Size,
    refresh: uint64,
    mirrorOf: string,
    relative: string,
    hAnchor: HorizontalAnchor,
    vAnchor: VerticalAnchor,
    primary: bool,
    position: Point,
    scale: real,
    transform: uint16,
    adaptiveSync: uint32,
    resultingDimensions: Size)

  /** The constructor: off, size (0, 0), nothing mirrored or anchored, at the
      origin, scale 1, no transform. The resulting size is not initialised there
      and keeps the default `QSize()`. */
  function NewTargetState(serial: string): (st: TargetState)
    ensures st.serial == serial && !st.on && st.dimensions == Size(0, 0) && st.refresh == 0
    ensures st.mirrorOf == "" && st.relative == "" && st.hAnchor == HNone && st.vAnchor == VNone
    ensures !st.primary && st.position == Point(0, 0) && st.scale == 1.0
    ensures st.transform == 0 && st.adaptiveSync == 0 && st.resultingDimensions == InvalidSize
  {
    TargetState(serial, false, Size(0, 0), 0, "", "", HNone, VNone, false, Point(0, 0), 1.0, 0, 0, InvalidSize)
  }

  /** `TargetState::isMirroring`. */
  predicate IsMirroring(st: TargetState) {
    st.mirrorOf != ""
  }

  /** An output does not both mirror another and sit relative to one. */
  predicate Exclusive(st: TargetState) {
    st.relative == "" || st.mirrorOf == ""
  }

  /** `TargetState::setDefaultValues`: copies the head's enabled flag, the size
      and rate of its current mode (each only if known), position, scale,
      transform (cast to `quint8`), adaptive sync, anchoring and primary flag.
      A null head changes nothing. */
  function SetDefaultValues(st: TargetState, head: Option<MetaHead>): (r: TargetState)
    ensures head.None? ==> r == st
    ensures head.Some? ==> (r.on == head.value.enabled && r.position == head.value.position
      && r.scale == head.value.scale && r.transform == Uint8Of(head.value.transform)
      && r.relative == head.value.relativeOutput && r.hAnchor == head.value.hAnchor
      && r.vAnchor == head.value.vAnchor && r.primary == head.value.primary)
    ensures head.Some? ==> r.adaptiveSync == Uint32Of(head.value.adaptiveSync)
    ensures head.Some? && head.value.currentMode.Some? && GetSize(head.value.currentMode.value).Some?
      ==> r.dimensions == head.value.currentMode.value.size
    ensures head.Some? && (head.value.currentMode.None? || GetSize(head.value.currentMode.value).None?)
      ==> r.dimensions == st.dimensions
    ensures head.Some? && head.value.currentMode.Some? && GetRefresh(head.value.currentMode.value).Some?
      ==> r.refresh == head.value.currentMode.value.refresh
    ensures head.Some? && (head.value.currentMode.None? || GetRefresh(head.value.currentMode.value).None?)
      ==> r.refresh == st.refresh
    ensures r.serial == st.serial && r.mirrorOf == st.mirrorOf && r.resultingDimensions == st.resultingDimensions
  {
    match head
    case None => st
    case Some(h) =>
      var withMode := match h.currentMode
        case None => st
        case Some(m) =>
          var d := match GetSize(m) case Some(s) => s case None => st.dimensions;
          var f := match GetRefresh(m) case Some(rate) => rate case None => st.refresh;
          st.(dimensions := d, refresh := f);
      withMode.(
        on := h.enabled,
        position := h.position,
        scale := h.scale,
        transform := Uint8Of(h.transform),
        adaptiveSync := Uint32Of(h.adaptiveSync),
        relative := h.relativeOutput,
        hAnchor := h.hAnchor,
        vAnchor := h.vAnchor,
        primary := h.primary)
  }

  /** A state seeded from a head mirrors nothing. */
  lemma SeededStateIsExclusive(serial: string, head: Option<MetaHead>)
    ensures Exclusive(SetDefaultValues(NewTargetState(serial), head))
    ensures !IsMirroring(SetDefaultValues(NewTargetState(serial), head))
  {
  }

  function SetOn(st: TargetState, on: bool): (r: TargetState)
    ensures r.on == on && r.(on := st.on) == st
  {
    st.(on := on)
  }

  function SetDimensions(st: TargetState, d: Size): (r: TargetState)
    ensures r.dimensions == d && r.(dimensions := st.dimensions) == st
  {
    st.(dimensions := d)
  }

  function SetRefresh(st: TargetState, refresh: uint64): (r: TargetState)
    ensures r.refresh == refresh && r.(refresh := st.refresh) == st
  {
    st.(refresh := refresh)
  }

  /** `TargetState::setMirrorOf`: mirroring something clears the relative
      output. */
  function SetMirrorOf(st: TargetState, mirrorOf: string): (r: TargetState)
    ensures r.mirrorOf == mirrorOf
    ensures mirrorOf != "" ==> r.relative == ""
    ensures mirrorOf == "" ==> r.relative == st.relative
    ensures r.(mirrorOf := st.mirrorOf, relative := st.relative) == st
    ensures Exclusive(st) ==> Exclusive(r)
  {
    if mirrorOf != "" then st.(mirrorOf := mirrorOf, relative := "") else st.(mirrorOf := mirrorOf)
  }

  /** `TargetState::setRelative`: a relative output ends mirroring. */
  function SetRelative(st: TargetState, relative: string): (r: TargetState)
    ensures r.relative == relative
    ensures relative != "" ==> !IsMirroring(r)
    ensures relative == "" ==> r.mirrorOf == st.mirrorOf
    ensures r.(mirrorOf := st.mirrorOf, relative := st.relative) == st
    ensures Exclusive(st) ==> Exclusive(r)
  {
    if relative != "" then st.(relative := relative, mirrorOf := "") else st.(relative := relative)
  }

  function SetHorizontalAnchor(st: TargetState, a: HorizontalAnchor): (r: TargetState)
    ensures r.hAnchor == a && r.(hAnchor := st.hAnchor) == st
  {
    st.(hAnchor := a)
  }

  function SetVerticalAnchor(st: TargetState, a: VerticalAnchor): (r: TargetState)
    ensures r.vAnchor == a && r.(vAnchor := st.vAnchor) == st
  {
    st.(vAnchor := a)
  }

  function SetPosition(st: TargetState, p: Point): (r: TargetState)
    ensures r.position == p && r.(position := st.position) == st
  {
    st.(position := p)
  }

  function SetPrimary(st: TargetState, primary: bool): (r: TargetState)
    ensures r.primary == primary && r.(primary := st.primary) == st
  {
    st.(primary := primary)
  }

  function SetScale(st: TargetState, scale: real): (r: TargetState)
    ensures r.scale == scale && r.(scale := st.scale) == st
  {
    st.(scale := scale)
  }

  /** The setter takes a `quint8` (in the implementation file; the header
      declares `quint16`), so the value is narrowed on the way in: 270 is
      stored as 14. */
  function SetTransform(st: TargetState, transform: uint16): (r: TargetState)
    ensures r.transform < 0x100 && (r.transform - transform) % 0x100 == 0
    ensures transform < 0x100 ==> r.transform == transform
    ensures r.(transform := st.transform) == st
  {
    st.(transform := Uint8Of(transform))
  }

  function SetAdaptiveSync(st: TargetState, adaptiveSync: uint32): (r: TargetState)
    ensures r.adaptiveSync == adaptiveSync && r.(adaptiveSync := st.adaptiveSync) == st
  {
    st.(adaptiveSync := adaptiveSync)
  }

  /** The size the output occupies in the layout: its mode size, with width and
      height swapped for a transform of 90 or 270, and otherwise scaled when
      the transform is none of 0, 90, 180, 270. */
  function UpdateResultingDimensions(st: TargetState): (r: TargetState)
    ensures r.(resultingDimensions := st.resultingDimensions) == st
    ensures st.transform == 0 || st.transform == 180 ==> r.resultingDimensions == st.dimensions
    ensures st.transform == 90 || st.transform == 270 ==> r.resultingDimensions == Transposed(st.dimensions)
    ensures st.transform !in {0, 90, 180, 270} ==> r.resultingDimensions == ScaleSize(st.dimensions, st.scale)
  {
    var scaled := if st.scale == 1.0 then st.dimensions else ScaleSize(st.dimensions, st.scale);
    var resulting :=
      if st.transform == 0 || st.transform == 180 then st.dimensions
      else if st.transform == 90 || st.transform == 270 then Size(st.dimensions.h, st.dimensions.w)
      else scaled;
    st.(resultingDimensions := resulting)
  }

  /** Seeded from a head whose transform is one of the protocol's eight values
      (`wl_output.transform`, 0 to 7), a state never has its sides swapped: a
      head rotated by 90 degrees reports transform 1, not 90. At scale 1 the
      resulting size is the mode size. */
  lemma ProtocolTransformsNeverSwap(st: TargetState)
    requires 0 <= st.transform < 8
    ensures st.transform != 0 ==> UpdateResultingDimensions(st).resultingDimensions == ScaleSize(st.dimensions, st.scale)
    ensures st.scale == 1.0 ==> UpdateResultingDimensions(st).resultingDimensions == st.dimensions
  {
  }
}
