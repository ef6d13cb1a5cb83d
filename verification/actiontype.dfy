/** `ActionType::Type`, the kind of a queued configuration action, and its
    conversions to and from the enumerator names. */
module ActionTypes {

  datatype ActionType =
    | SetAbsolutePosition
    | SetAdaptiveSync
    | SetGamma
    | SetMirrorOf
    | SetMode
    | SetOnOff
    | SetPrimary
    | SetPositionAnchor
    | SetScale
    | SetTransform

  /** `ActionType::toString`: the enumerator name. */
  function ActionTypeToString(t: ActionType): (s: string)
    ensures |s| > 0
  {
    match t
    case SetAbsolutePosition => "SetAbsolutePosition"
    case SetAdaptiveSync => "SetAdaptiveSync"
    case SetGamma => "SetGamma"
    case SetMirrorOf => "SetMirrorOf"
    case SetMode => "SetMode"
    case SetOnOff => "SetOnOff"
    case SetPrimary => "SetPrimary"
    case SetPositionAnchor => "SetPositionAnchor"
    case SetScale => "SetScale"
    case SetTransform => "SetTransform"
  }

  /** `ActionType::fromString`: an exact enumerator name, otherwise `SetOnOff`. */
  function ActionTypeFromString(s: string): (t: ActionType)
    ensures forall u :: s == ActionTypeToString(u) ==> t == u
    ensures t != SetOnOff ==> ActionTypeToString(t) == s
  {
    if s == "SetAbsolutePosition" then SetAbsolutePosition
    else if s == "SetAdaptiveSync" then SetAdaptiveSync
    else if s == "SetGamma" then SetGamma
    else if s == "SetMirrorOf" then SetMirrorOf
    else if s == "SetMode" then SetMode
    else if s == "SetOnOff" then SetOnOff
    else if s == "SetPrimary" then SetPrimary
    else if s == "SetPositionAnchor" then SetPositionAnchor
    else if s == "SetScale" then SetScale
    else if s == "SetTransform" then SetTransform
    else SetOnOff
  }

  /** Distinct kinds have distinct names, so every kind survives a round trip
      through its name. */
  lemma ActionTypeRoundTrip(t: ActionType)
    ensures ActionTypeFromString(ActionTypeToString(t)) == t
    ensures forall u :: ActionTypeToString(u) == ActionTypeToString(t) ==> u == t
  {
  }

  /** Any string that names no kind is read as `SetOnOff`. */
  lemma UnknownNameIsOnOff(s: string)
    requires forall u :: s != ActionTypeToString(u)
    ensures ActionTypeFromString(s) == SetOnOff
  {
  }
}
