/** The two anchor enumerations of the output configuration
    (`outputs/config/enums/anchors.hpp`) and their string conversions, which
    are what configuration files store. */
module Anchors {
  import opened Wrappers
  import Text

  /** `HorizontalAnchor::Type`; `HNone` is the enumerator `None`. */
  datatype HorizontalAnchor = HNone | Left | Right | Center

  /** `VerticalAnchor::Type`; `VNone` is the enumerator `None`. */
  datatype VerticalAnchor = VNone | Above | Top | Middle | Bottom | Below

  /** `HorizontalAnchor::toString`: the lower-case name used in configuration files. */
  function HorizontalToString(a: HorizontalAnchor): (s: string)
    ensures Text.IsLowerWord(s) && |s| > 0
  {
    match a
    case Left => "left"
    case Right => "right"
    case Center => "center"
    case HNone => "none"
  }

  /** The enumerator names `QMetaEnum` knows for `HorizontalAnchor::Type`. */
  function HorizontalKey(a: HorizontalAnchor): string {
    match a
    case HNone => "None"
    case Left => "Left"
    case Right => "Right"
    case Center => "Center"
  }

  /** `QMetaEnum::keyToValue` for `HorizontalAnchor::Type`: exact, case-sensitive
      match of an enumerator name. */
  function HorizontalKeyToValue(s: string): (r: Option<HorizontalAnchor>)
    ensures forall a :: HorizontalKey(a) == s ==> r == Some(a)
    ensures r.Some? ==> HorizontalKey(r.value) == s
  {
    if s == "None" then Some(HNone)
    else if s == "Left" then Some(Left)
    else if s == "Right" then Some(Right)
    else if s == "Center" then Some(Center)
    else None
  }

  /** `HorizontalAnchor::fromString`: only the enumerator names are recognised;
      anything else, including the lower-case names `HorizontalToString` writes,
      yields `HNone`. */
  function HorizontalFromString(s: string): (r: HorizontalAnchor)
    ensures forall a :: s == HorizontalKey(a) ==> r == a
    ensures r != HNone ==> s == HorizontalKey(r)
  {
    if s == "" then HNone
    else match HorizontalKeyToValue(s)
      case Some(a) => a
      case None => HNone
  }

  /** Reading back what `HorizontalToString` writes always loses the anchor. */
  lemma HorizontalRoundTripLosesAnchor(a: HorizontalAnchor)
    ensures HorizontalFromString(HorizontalToString(a)) == HNone
  {
  }

  /** `VerticalAnchor::toString`. */
  function VerticalToString(a: VerticalAnchor): (s: string)
    ensures Text.IsLowerWord(s) && |s| > 0
  {
    match a
    case Above => "above"
    case Top => "top"
    case Middle => "middle"
    case Bottom => "bottom"
    case Below => "below"
    case VNone => "none"
  }

  function VerticalKey(a: VerticalAnchor): string {
    match a
    case VNone => "None"
    case Above => "Above"
    case Top => "Top"
    case Middle => "Middle"
    case Bottom => "Bottom"
    case Below => "Below"
  }

  /** `QMetaEnum::keyToValue` for `VerticalAnchor::Type`. */
  function VerticalKeyToValue(s: string): (r: Option<VerticalAnchor>)
    ensures forall a :: VerticalKey(a) == s ==> r == Some(a)
    ensures r.Some? ==> VerticalKey(r.value) == s
  {
    if s == "None" then Some(VNone)
    else if s == "Above" then Some(Above)
    else if s == "Top" then Some(Top)
    else if s == "Middle" then Some(Middle)
    else if s == "Bottom" then Some(Bottom)
    else if s == "Below" then Some(Below)
    else None
  }

  /** `VerticalAnchor::fromString`: a case-insensitive match of the lower-case
      names, then the enumerator names, else `VNone`. */
  function VerticalFromString(s: string): (r: VerticalAnchor)
    ensures forall a :: Text.ToLower(s) == VerticalToString(a) ==> r == a
    ensures r != VNone ==> Text.ToLower(s) == VerticalToString(r) || s == VerticalKey(r)
  {
    var lower := Text.ToLower(s);
    if lower == "above" then Above
    else if lower == "top" then Top
    else if lower == "middle" then Middle
    else if lower == "bottom" then Bottom
    else if lower == "below" then Below
    else if lower == "none" then VNone
    else match VerticalKeyToValue(s)
      case Some(a) => a
      case None => VNone
  }

  /** Distinct anchors are written as distinct strings. */
  lemma AnchorNamesDistinct(a: HorizontalAnchor, b: HorizontalAnchor, c: VerticalAnchor, d: VerticalAnchor)
    ensures HorizontalToString(a) == HorizontalToString(b) ==> a == b
    ensures VerticalToString(c) == VerticalToString(d) ==> c == d
  {
  }

  /** Vertical anchors survive being written and read back. */
  lemma VerticalRoundTrip(a: VerticalAnchor)
    ensures VerticalFromString(VerticalToString(a)) == a
  {
    Text.ToLowerOfLowerWord(VerticalToString(a));
  }
}
