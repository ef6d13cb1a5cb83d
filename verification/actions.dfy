/** A queued configuration action (`outputs/config/action.cpp`): one record with
    every parameter any kind of action can carry, built by one factory per kind
    that sets only that kind's parameters. */
module Actions {
  import opened ActionTypes
  import opened Anchors
  import opened Geometry

  datatype Action = Action(
    kind: ActionType,
    serial: string,
    on: bool,
    relative: string,
    dimensions: Size,
    refresh: uint64,
    hAnchor: HorizontalAnchor,
    vAnchor: VerticalAnchor,
    absolutePosition: Point,
    scale: real,
    transform: uint16,
    adaptiveSync: uint32,
    primary: bool)

  /** The parameters of a freshly constructed action hold the constructor's
      defaults: off, no relative, the invalid size `QSize()`, no refresh, no
      anchors, the origin, scale 1, no transform, no adaptive sync, not primary. */
  predicate HasDefaults(a: Action) {
    && !a.on
    && a.relative == ""
    && a.dimensions == InvalidSize
    && a.refresh == 0
    && a.hAnchor == HNone
    && a.vAnchor == VNone
    && a.absolutePosition == Point(0, 0)
    && a.scale == 1.0
    && a.transform == 0
    && a.adaptiveSync == 0
    && !a.primary
  }

  /** The protected constructor `Action(type, serial)`. */
  function NewAction(kind: ActionType, serial: string): (a: Action)
    ensures a.kind == kind && a.serial == serial && HasDefaults(a)
  {
    Action(kind, serial, false, "", InvalidSize, 0, HNone, VNone, Point(0, 0), 1.0, 0, 0, false)
  }

  /** `Action::explicitOn`. */
  function ExplicitOn(serial: string): (a: Action)
    ensures a.kind == SetOnOff && a.serial == serial && a.on
    ensures HasDefaults(a.(on := false))
  {
    NewAction(SetOnOff, serial).(on := true)
  }

  /** `Action::explicitOff`: a switch action whose flag keeps its default, off. */
  function ExplicitOff(serial: string): (a: Action)
    ensures a.kind == SetOnOff && a.serial == serial && !a.on
    ensures HasDefaults(a)
  {
    NewAction(SetOnOff, serial)
  }

  /** `Action::mirrorOf`. */
  function MirrorOf(serial: string, relative: string): (a: Action)
    ensures a.kind == SetMirrorOf && a.serial == serial && a.relative == relative
    ensures HasDefaults(a.(relative := ""))
  {
    NewAction(SetMirrorOf, serial).(relative := relative)
  }

  /** `Action::mode`. */
  function Mode(serial: string, dimensions: Size, refresh: uint64): (a: Action)
    ensures a.kind == SetMode && a.serial == serial
    ensures a.dimensions == dimensions && a.refresh == refresh
    ensures HasDefaults(a.(dimensions := InvalidSize, refresh := 0))
  {
    NewAction(SetMode, serial).(dimensions := dimensions, refresh := refresh)
  }

  /** `Action::absolutePosition`. */
  function AbsolutePosition(serial: string, position: Point): (a: Action)
    ensures a.kind == SetAbsolutePosition && a.serial == serial && a.absolutePosition == position
    ensures HasDefaults(a.(absolutePosition := Point(0, 0)))
  {
    NewAction(SetAbsolutePosition, serial).(absolutePosition := position)
  }

  /** `Action::positionAnchor` (also reached as `setPositionAnchor`). */
  function PositionAnchor(serial: string, relative: string, h: HorizontalAnchor, v: VerticalAnchor): (a: Action)
    ensures a.kind == SetPositionAnchor && a.serial == serial
    ensures a.relative == relative && a.hAnchor == h && a.vAnchor == v
    ensures HasDefaults(a.(relative := "", hAnchor := HNone, vAnchor := VNone))
  {
    NewAction(SetPositionAnchor, serial).(relative := relative, hAnchor := h, vAnchor := v)
  }

  /** `Action::scale`. */
  function Scale(serial: string, scale: real): (a: Action)
    ensures a.kind == SetScale && a.serial == serial && a.scale == scale
    ensures HasDefaults(a.(scale := 1.0))
  {
    NewAction(SetScale, serial).(scale := scale)
  }

  /** `Action::transform`; the parameter is a `quint16`. */
  function Transform(serial: string, transform: uint16): (a: Action)
    ensures a.kind == SetTransform && a.serial == serial && a.transform == transform
    ensures HasDefaults(a.(transform := 0))
  {
    NewAction(SetTransform, serial).(transform := transform)
  }

  /** `Action::adaptiveSync`; the parameter is a `uint32_t`. */
  function AdaptiveSync(serial: string, adaptiveSync: uint32): (a: Action)
    ensures a.kind == SetAdaptiveSync && a.serial == serial && a.adaptiveSync == adaptiveSync
    ensures HasDefaults(a.(adaptiveSync := 0))
  {
    NewAction(SetAdaptiveSync, serial).(adaptiveSync := adaptiveSync)
  }

  /** `Action::primary`. */
  function Primary(serial: string): (a: Action)
    ensures a.kind == SetPrimary && a.serial == serial && a.primary
    ensures HasDefaults(a.(primary := false))
  {
    NewAction(SetPrimary, serial).(primary := true)
  }
}
