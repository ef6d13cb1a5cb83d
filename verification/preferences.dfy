/** The global output preferences (`config/outputs/global_preferences.cpp`):
    where newly attached outputs go relative to the existing ones, and the
    strings the configuration file stores it as. */
module GlobalPreferences {
  import opened Wrappers
  import Text

  /** `GlobalPreferences::DisplayRelativePosition`. */
  datatype RelativePosition = RelNone | RelLeft | RelRight | RelAbove | RelBelow

  /** `GlobalPreferences`: the one preference it holds. */
  datatype Preferences = Preferences(automaticAttachOutputsRelativePosition: RelativePosition)

  /** The constructor: no automatic placement. */
  function NewPreferences(): (p: Preferences)
    ensures p.automaticAttachOutputsRelativePosition == RelNone
  {
    Preferences(RelNone)
  }

  /** `GlobalPreferences::toString`: the lower-case name. */
  function PositionToString(p: RelativePosition): (s: string)
    ensures Text.IsLowerWord(s) && |s| > 0
  {
    match p
    case RelLeft => "left"
    case RelRight => "right"
    case RelAbove => "above"
    case RelBelow => "below"
    case RelNone => "none"
  }

  /** The enumerator's name, as the meta-object system knows it. */
  function PositionKey(p: RelativePosition): string {
    match p
    case RelNone => "None"
    case RelLeft => "Left"
    case RelRight => "Right"
    case RelAbove => "Above"
    case RelBelow => "Below"
  }

  /** Each enumerator name lowers to the string `toString` writes. */
  lemma KeyLowersToName(p: RelativePosition)
    ensures Text.ToLower(PositionKey(p)) == PositionToString(p)
  {
    var k := PositionKey(p);
    var l := Text.ToLower(k);
    assert |l| == |PositionToString(p)|;
    assert l[0] == PositionToString(p)[0];
    forall i | 0 <= i < |l|
      ensures l[i] == PositionToString(p)[i]
    {
    }
  }

  /** `QMetaEnum::keyToValue` for `DisplayRelativePosition`: an exact match
      of an enumerator name. Every name it accepts already lowers to one of
      the strings `toString` writes. */
  function PositionKeyToValue(s: string): (r: Option<RelativePosition>)
    ensures forall p :: PositionKey(p) == s ==> r == Some(p)
    ensures r.Some? ==> PositionKey(r.value) == s
    ensures r.Some? ==> Text.ToLower(s) == PositionToString(r.value)
  {
    if s == "None" then KeyLowersToName(RelNone); Some(RelNone)
    else if s == "Left" then KeyLowersToName(RelLeft); Some(RelLeft)
    else if s == "Right" then KeyLowersToName(RelRight); Some(RelRight)
    else if s == "Above" then KeyLowersToName(RelAbove); Some(RelAbove)
    else if s == "Below" then KeyLowersToName(RelBelow); Some(RelBelow)
    else None
  }

  /** `GlobalPreferences::fromString`: a case-insensitive match of the
      lower-case names, then the enumerator names, else `None`. */
  function PositionFromString(s: string): (r: RelativePosition)
    ensures forall p :: Text.ToLower(s) == PositionToString(p) ==> r == p
    ensures r != RelNone ==> Text.ToLower(s) == PositionToString(r)
  {
    var lower := Text.ToLower(s);
    if lower == "left" then RelLeft
    else if lower == "right" then RelRight
    else if lower == "above" then RelAbove
    else if lower == "below" then RelBelow
    else if lower == "none" then RelNone
    else match PositionKeyToValue(s)
      case Some(p) => p
      case None => RelNone
  }

  /** Only the five lower-case names, as a reference for what `fromString`
      accepts. */
  function LowerCaseName(lower: string): RelativePosition {
    if lower == "left" then RelLeft
    else if lower == "right" then RelRight
    else if lower == "above" then RelAbove
    else if lower == "below" then RelBelow
    else RelNone
  }

  /** The meta-enum fallback of `fromString` never decides anything for an
      unscoped name: every plain enumerator name it would accept has already
      been matched in lower case, so the result depends only on the lowered
      string. Scope-qualified names are not modelled. */
  lemma MetaEnumFallbackUnreachable(s: string)
    ensures PositionFromString(s) == LowerCaseName(Text.ToLower(s))
  {
    var r := PositionKeyToValue(s);
    if r.Some? {
      assert Text.ToLower(s) == PositionToString(r.value);
    }
  }

  /** A preference survives being written and read back. */
  lemma PositionRoundTrip(p: RelativePosition)
    ensures PositionFromString(PositionToString(p)) == p
  {
    Text.ToLowerOfLowerWord(PositionToString(p));
  }

  /** Reading is case-insensitive: any spelling of a name reads as that
      preference, and a string that spells none of the five reads as `None`. */
  lemma FromStringCaseInsensitive(s: string, p: RelativePosition)
    ensures Text.ToLower(s) == PositionToString(p) ==> PositionFromString(s) == p
    ensures (forall q :: Text.ToLower(s) != PositionToString(q)) ==> PositionFromString(s) == RelNone
  {
    MetaEnumFallbackUnreachable(s);
  }
}
