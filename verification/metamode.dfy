/** A display mode as the output manager tracks it (`outputs/wlr/metamode.cpp`):
    size and refresh rate arrive as separate protocol events, and the mode
    becomes available, with an identifier `<width>_<height>_<refresh>`, once
    both are known. */
module MetaModes {
  import opened Wrappers
  import opened Geometry
  import Text

  datatype MetaMode = MetaMode(
    id: string,
    hasWlrMode: bool,          // whether a protocol mode object is attached
    refresh: uint64,              // millihertz
    preferred: Option<bool>,
    size: Size,
    isAvailable: Option<bool>)

  /** The constructor: empty id, refresh 0, size (0, 0), nothing known, then
      `setMode(wlr_mode)`. */
  function NewMetaMode(withWlrMode: bool): (m: MetaMode)
    ensures m.id == "" && m.refresh == 0 && m.size == Size(0, 0) && m.preferred.None?
    ensures m.hasWlrMode == withWlrMode
    ensures !Available(m) && (m.isAvailable.Some? <==> withWlrMode)
  {
    SetMode(MetaMode("", false, 0, None, Size(0, 0), None), withWlrMode)
  }

  /** `MetaMode::available`. */
  predicate Available(m: MetaMode) {
    m.isAvailable == Some(true)
  }

  /** `MetaMode::preferred`. */
  predicate Preferred(m: MetaMode) {
    m.preferred == Some(true)
  }

  /** `MetaMode::width`: zero unless the size is usable. */
  function Width(m: MetaMode): (w: int)
    ensures GetSize(m).Some? ==> w == GetSize(m).value.w
    ensures GetSize(m).None? ==> w == 0
  {
    if SizeIsEmpty(m.size) || SizeIsNull(m.size) then 0 else m.size.w
  }

  /** `MetaMode::height`. */
  function Height(m: MetaMode): (h: int)
    ensures GetSize(m).Some? ==> h == GetSize(m).value.h
    ensures GetSize(m).None? ==> h == 0
  {
    if SizeIsEmpty(m.size) || SizeIsNull(m.size) then 0 else m.size.h
  }

  /** `MetaMode::getRefresh`: absent while the rate is zero. */
  function GetRefresh(m: MetaMode): (r: Option<uint64>)
    ensures r.Some? ==> r.value > 0 && r.value == m.refresh
    ensures r.None? <==> m.refresh == 0
  {
    if m.refresh == 0 then None else Some(m.refresh)
  }

  /** `MetaMode::getSize`: absent while the size is empty or null; a present
      size has both sides at least one. */
  function GetSize(m: MetaMode): (s: Option<Size>)
    ensures s.Some? ==> s.value == m.size && s.value.w >= 1 && s.value.h >= 1
    ensures s.None? <==> m.size.w < 1 || m.size.h < 1
  {
    if SizeIsEmpty(m.size) || SizeIsNull(m.size) then None else Some(m.size)
  }

  /** Both size and refresh rate are known. */
  predicate Complete(m: MetaMode) {
    GetRefresh(m).Some? && GetSize(m).Some?
  }

  /** `MetaMode::isSameAs`: both modes complete, with equal size and rate. */
  function IsSameAs(m: MetaMode, other: Option<MetaMode>): (r: bool)
    ensures r ==> other.Some? && Complete(m) && Complete(other.value)
    ensures r ==> m.size == other.value.size && m.refresh == other.value.refresh
    ensures other.Some? && Complete(m) && Complete(other.value) && m.size == other.value.size && m.refresh == other.value.refresh ==> r
  {
    match other
    case None => false
    case Some(o) =>
      GetRefresh(o).Some? && GetSize(o).Some? && GetRefresh(m).Some? && GetSize(m).Some?
      && GetRefresh(o).value == GetRefresh(m).value && GetSize(o).value == GetSize(m).value
  }

  /** `MetaMode::unsetMode`: detaches the protocol mode and marks the mode
      unavailable. */
  function UnsetMode(m: MetaMode): (r: MetaMode)
    ensures !r.hasWlrMode && r.isAvailable == Some(false)
    ensures r.(hasWlrMode := m.hasWlrMode, isAvailable := m.isAvailable) == m
  {
    m.(hasWlrMode := false, isAvailable := Some(false))
  }

  /** `MetaMode::setMode`: a null protocol mode is ignored; otherwise the mode is
      unset and the new protocol mode attached, so it stays unavailable until
      its properties are delivered again. */
  function SetMode(m: MetaMode, withWlrMode: bool): (r: MetaMode)
    ensures !withWlrMode ==> r == m
    ensures withWlrMode ==> r.hasWlrMode && r.isAvailable == Some(false)
    ensures r.size == m.size && r.refresh == m.refresh && r.id == m.id && r.preferred == m.preferred
  {
    if !withWlrMode then m else UnsetMode(m).(hasWlrMode := true)
  }

  /** `MetaMode::modeDisconnected`. */
  function ModeDisconnected(m: MetaMode): (r: MetaMode)
    ensures !Available(r) && !r.hasWlrMode
  {
    UnsetMode(m)
  }

  /** `MetaMode::setPreferred`. */
  function SetPreferred(m: MetaMode, preferred: bool): (r: MetaMode)
    ensures Preferred(r) == preferred && r.(preferred := m.preferred) == m
  {
    m.(preferred := Some(preferred))
  }

  /** The protocol events a mode receives (`MetaModeProperty::Property` with its value). */
  datatype ModeProperty =
    | PreferredProperty(flag: bool)
    | RefreshProperty(rate: int32)     // the protocol's `int32_t`
    | SizeProperty(dimensions: Size)
    | NoModeProperty

  /** `<width>_<height>_<refresh>`, as `QString("%1_%2_%3").arg(…)` builds it. */
  function ModeId(w: int, h: int, refresh: nat): string {
    Text.IntToDecimal(w) + "_" + Text.IntToDecimal(h) + "_" + Text.NatToDecimal(refresh)
  }

  /** Reads an identifier of the form `<width>_<height>_<refresh>` back. */
  function ParseModeId(id: string): Option<(nat, nat, nat)> {
    var parts := Text.Split(id, '_');
    if |parts| == 3 && (forall k :: 0 <= k < 3 ==> |parts[k]| > 0 && Text.AllDigits(parts[k])) then
      Some((Text.DecimalValue(parts[0]), Text.DecimalValue(parts[1]), Text.DecimalValue(parts[2])))
    else None
  }

  lemma DigitsHaveNoUnderscore(s: string)
    requires Text.AllDigits(s)
    ensures '_' !in s
  {
  }

  /** Mode identifiers of usable modes determine the size and the rate. */
  lemma {:induction false} ModeIdRoundTrip(w: nat, h: nat, refresh: nat)
    ensures ParseModeId(ModeId(w, h, refresh)) == Some((w, h, refresh))
  {
    var a, b, c := Text.NatToDecimal(w), Text.NatToDecimal(h), Text.NatToDecimal(refresh);
    var id := ModeId(w, h, refresh);
    assert id == a + "_" + b + "_" + c;
    SplitThree(a, b, c);
    ParseDigitParts(id, a, b, c);
    Text.DecimalRoundTrip(w);
    Text.DecimalRoundTrip(h);
    Text.DecimalRoundTrip(refresh);
  }

  /** An identifier that splits into three non-empty digit strings reads as
      their values. */
  lemma ParseDigitParts(id: string, a: string, b: string, c: string)
    requires |a| > 0 && |b| > 0 && |c| > 0
    requires Text.AllDigits(a) && Text.AllDigits(b) && Text.AllDigits(c)
    requires Text.Split(id, '_') == [a, b, c]
    ensures ParseModeId(id) == Some((Text.DecimalValue(a), Text.DecimalValue(b), Text.DecimalValue(c)))
  {
    var parts := Text.Split(id, '_');
    assert forall k :: 0 <= k < 3 ==> |parts[k]| > 0 && Text.AllDigits(parts[k]);
  }

  /** Three digit strings joined by underscores split back into the three. */
  lemma SplitThree(a: string, b: string, c: string)
    requires Text.AllDigits(a) && Text.AllDigits(b) && Text.AllDigits(c)
    ensures Text.Split(a + "_" + b + "_" + c, '_') == [a, b, c]
  {
    DigitsHaveNoUnderscore(a);
    DigitsHaveNoUnderscore(b);
    DigitsHaveNoUnderscore(c);
    assert a + "_" + b + "_" + c == a + ['_'] + (b + ['_'] + c);
    Text.SplitPrefix(a, '_', b + ['_'] + c);
    Text.SplitPrefix(b, '_', c);
    assert Text.Split(c, '_') == [c];
  }

  /** `MetaMode::setProperty`. Returns the updated mode and whether `done` was
      emitted: that happens when a property was stored and the mode now has a
      rate and a valid size, and the mode then gets its identifier and becomes
      available. */
  function SetProperty(m: MetaMode, p: ModeProperty): (r: (MetaMode, bool))
    ensures p.NoModeProperty? ==> r == (m, false)
    ensures p.PreferredProperty? ==> r.0.preferred == Some(p.flag)
    ensures p.RefreshProperty? ==> r.0.refresh == Uint64Of(p.rate)
    ensures p.SizeProperty? ==> r.0.size == p.dimensions
    ensures r.1 <==> !p.NoModeProperty? && Complete(r.0)
    ensures r.1 ==> Available(r.0)
    ensures r.1 ==> ParseModeId(r.0.id) == Some((r.0.size.w as nat, r.0.size.h as nat, r.0.refresh))
    ensures !r.1 ==> r.0.id == m.id && r.0.isAvailable == m.isAvailable
    ensures r.0.hasWlrMode == m.hasWlrMode
  {
    var stored := match p
      case PreferredProperty(f) => m.(preferred := Some(f))
      case RefreshProperty(rate) => m.(refresh := Uint64Of(rate))
      case SizeProperty(s) => m.(size := s)
      case NoModeProperty => m;
    if p.NoModeProperty? then (m, false)
    else match (GetRefresh(stored), GetSize(stored))
      case (Some(rate), Some(s)) =>
        if !SizeIsValid(s) then (stored, false)
        else
          ModeIdRoundTrip(s.w, s.h, rate);
          (stored.(id := ModeId(s.w, s.h, rate), isAvailable := Some(true)), true)
      case _ => (stored, false)
  }

  /** Two modes that have completed are the same exactly when their identifiers are. */
  lemma SameAsIffSameId(m: MetaMode, n: MetaMode)
    requires Complete(m) && m.id == ModeId(m.size.w, m.size.h, m.refresh)
    requires Complete(n) && n.id == ModeId(n.size.w, n.size.h, n.refresh)
    ensures IsSameAs(m, Some(n)) <==> m.id == n.id
  {
    ModeIdRoundTrip(m.size.w, m.size.h, m.refresh);
    ModeIdRoundTrip(n.size.w, n.size.h, n.refresh);
  }
}
