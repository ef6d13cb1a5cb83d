/** One output's stored configuration inside a preset group
    (`config/outputs/output.cpp`), its TOML form, and the refresh from the
    live head. */
module OutputConfigs {
  import opened Wrappers
  import opened Geometry
  import opened Anchors
  import opened Toml
  import opened MetaHeads

  /** `Config::Outputs::Output`, field widths as declared. */
  datatype OutputConfig = OutputConfig(
    identifier: string,
    width: int32,
    height: int32,
    refresh: uint64,
    x: int32,
    y: int32,
    relativeOutput: string,
    hAnchor: HorizontalAnchor,
    vAnchor: VerticalAnchor,
    transform: uint16,
    adaptiveSync: uint32,
    primary: bool,
    scale: real,
    disabled: bool)

  /** The default constructor. */
  function NewOutput(): OutputConfig {
    OutputConfig("", 0, 0, 0, 0, 0, "", HNone, VNone, 0, 0, false, 1.0, false)
  }

  /** The keys without which the TOML constructor throws. */
  predicate HasRequiredKeys(t: Table) {
    FindString(t, KIdentifier).Some? && FindInteger(t, KWidth).Some? &&
    FindInteger(t, KHeight).Some? && FindInteger(t, KRefresh).Some?
  }

  /** The TOML constructor: identifier, width, height and refresh are
      required, every other key falls back to the default constructor's
      value when it is missing or of another type. Integers are cast to the
      field's width. */
  function OutputFromToml(t: Table): (r: Option<OutputConfig>)
    ensures r.Some? <==> HasRequiredKeys(t)
    ensures r.Some? ==> r.value.identifier == t[KIdentifier].s
    ensures r.Some? ==> r.value.width == Int32Of(t[KWidth].i) && r.value.height == Int32Of(t[KHeight].i)
    ensures r.Some? ==> r.value.refresh == Uint64Of(t[KRefresh].i)
    ensures r.Some? && KX !in t ==> r.value.x == 0
    ensures r.Some? && KY !in t ==> r.value.y == 0
    ensures r.Some? && KRelativeOutput !in t ==> r.value.relativeOutput == ""
    ensures r.Some? && KHorizontalAnchor !in t ==> r.value.hAnchor == HNone
    ensures r.Some? && KVerticalAnchor !in t ==> r.value.vAnchor == VNone
    ensures r.Some? && KRotation !in t ==> r.value.transform == 0
    ensures r.Some? && KAdaptiveSync !in t ==> r.value.adaptiveSync == 0
    ensures r.Some? && KPrimary !in t ==> !r.value.primary
    ensures r.Some? && KDisabled !in t ==> !r.value.disabled
    ensures r.Some? && KScale !in t ==> r.value.scale == 1.0
  {
    var id :- FindString(t, KIdentifier);
    var w :- FindInteger(t, KWidth);
    var h :- FindInteger(t, KHeight);
    var refresh :- FindInteger(t, KRefresh);
    Some(OutputConfig(
      id, Int32Of(w), Int32Of(h), Uint64Of(refresh),
      Int32Of(FindInteger(t, KX).GetOr(0)),
      Int32Of(FindInteger(t, KY).GetOr(0)),
      FindString(t, KRelativeOutput).GetOr(""),
      HorizontalFromString(FindString(t, KHorizontalAnchor).GetOr("none")),
      VerticalFromString(FindString(t, KVerticalAnchor).GetOr("none")),
      Uint16Of(FindInteger(t, KRotation).GetOr(0)),
      Uint32Of(FindInteger(t, KAdaptiveSync).GetOr(0)),
      FindBool(t, KPrimary).GetOr(false),
      FindFloat(t, KScale).GetOr(1.0),
      FindBool(t, KDisabled).GetOr(false)))
  }

  /** A table with only the required keys reads as the default constructor
      would have it, with those four fields filled in. */
  lemma MinimalTableGivesDefaults(id: string, w: int32, h: int32, refresh: uint64)
    ensures OutputFromToml(map[KIdentifier := TString(id), KWidth := TInt(w), KHeight := TInt(h), KRefresh := TInt(Int64Of(refresh))])
         == Some(NewOutput().(identifier := id, width := w, height := h, refresh := refresh))
  {
    var t := map[KIdentifier := TString(id), KWidth := TInt(w), KHeight := TInt(h), KRefresh := TInt(Int64Of(refresh))];
    Uint64ThroughInt64(refresh);
    assert HasRequiredKeys(t);
    assert KX !in t && KY !in t && KRelativeOutput !in t && KHorizontalAnchor !in t && KVerticalAnchor !in t;
    assert KRotation !in t && KAdaptiveSync !in t && KPrimary !in t && KDisabled !in t && KScale !in t;
  }

  /** `Output::toToml`: in shim mode the absolute position is written, otherwise
      the anchoring; everything else always. */
  function OutputToToml(o: OutputConfig, shim: bool): (t: Table)
    ensures HasRequiredKeys(t)
    ensures shim ==> KX in t && KY in t && KRelativeOutput !in t && KHorizontalAnchor !in t && KVerticalAnchor !in t
    ensures !shim ==> KX !in t && KY !in t && KRelativeOutput in t && KHorizontalAnchor in t && KVerticalAnchor in t
  {
    var common := CommonFields(o);
    if shim then
      common + map[KX := TInt(o.x), KY := TInt(o.y)]
    else
      common + map[
        KRelativeOutput := TString(o.relativeOutput),
        KHorizontalAnchor := TString(HorizontalToString(o.hAnchor)),
        KVerticalAnchor := TString(VerticalToString(o.vAnchor))]
  }

  /** The keys written in both modes. */
  function CommonFields(o: OutputConfig): (t: Table)
    ensures HasRequiredKeys(t)
    ensures KX !in t && KY !in t && KRelativeOutput !in t && KHorizontalAnchor !in t && KVerticalAnchor !in t
  {
    map[
      KIdentifier := TString(o.identifier),
      KWidth := TInt(o.width),
      KHeight := TInt(o.height),
      KRefresh := TInt(Int64Of(o.refresh)),
      KScale := TFloat(o.scale),
      KRotation := TInt(o.transform),
      KAdaptiveSync := TInt(o.adaptiveSync),
      KPrimary := TBool(o.primary),
      KDisabled := TBool(o.disabled)]
  }

  /** What survives writing an output and reading it back: in shim mode the
      anchoring is dropped, otherwise the position; the horizontal anchor is
      lost either way, since it is written in lower case and read back only
      under its enumerator name. */
  function Reloaded(o: OutputConfig, shim: bool): OutputConfig {
    if shim then o.(relativeOutput := "", hAnchor := HNone, vAnchor := VNone)
    else o.(x := 0, y := 0, hAnchor := HNone)
  }

  /** The identity and mode fields read back unchanged (the refresh rate
      passes through the signed 64-bit integer TOML stores). */
  lemma ModeFieldsRoundTrip(o: OutputConfig, shim: bool)
    ensures var t := OutputToToml(o, shim);
      && FindString(t, KIdentifier) == Some(o.identifier)
      && Int32Of(FindInteger(t, KWidth).value) == o.width
      && Int32Of(FindInteger(t, KHeight).value) == o.height
      && Uint64Of(FindInteger(t, KRefresh).value) == o.refresh
  {
    Uint64ThroughInt64(o.refresh);
  }

  /** Scale, rotation and adaptive sync read back unchanged. */
  lemma PropertyFieldsRoundTrip(o: OutputConfig, shim: bool)
    ensures var t := OutputToToml(o, shim);
      && Uint16Of(FindInteger(t, KRotation).GetOr(0)) == o.transform
      && Uint32Of(FindInteger(t, KAdaptiveSync).GetOr(0)) == o.adaptiveSync
      && FindFloat(t, KScale).GetOr(1.0) == o.scale
  {
  }

  /** The primary and disabled flags read back unchanged. */
  lemma FlagFieldsRoundTrip(o: OutputConfig, shim: bool)
    ensures var t := OutputToToml(o, shim);
      && FindBool(t, KPrimary).GetOr(false) == o.primary
      && FindBool(t, KDisabled).GetOr(false) == o.disabled
  {
  }

  /** The position survives only in shim mode. */
  lemma PositionRoundTrip(o: OutputConfig, shim: bool)
    ensures var t := OutputToToml(o, shim);
      && Int32Of(FindInteger(t, KX).GetOr(0)) == (if shim then o.x else 0)
      && Int32Of(FindInteger(t, KY).GetOr(0)) == (if shim then o.y else 0)
  {
  }

  /** The anchoring survives only outside shim mode, and then without the
      horizontal anchor. */
  lemma AnchoringRoundTrip(o: OutputConfig, shim: bool)
    ensures var t := OutputToToml(o, shim);
      && FindString(t, KRelativeOutput).GetOr("") == (if shim then "" else o.relativeOutput)
      && HorizontalFromString(FindString(t, KHorizontalAnchor).GetOr("none")) == HNone
      && VerticalFromString(FindString(t, KVerticalAnchor).GetOr("none")) == (if shim then VNone else o.vAnchor)
  {
    HorizontalRoundTripLosesAnchor(o.hAnchor);
    VerticalRoundTrip(o.vAnchor);
    VerticalRoundTrip(VNone);
    assert HorizontalFromString("none") == HNone;
  }

  lemma OutputRoundTrip(o: OutputConfig, shim: bool)
    ensures OutputFromToml(OutputToToml(o, shim)) == Some(Reloaded(o, shim))
  {
    ModeFieldsRoundTrip(o, shim);
    PropertyFieldsRoundTrip(o, shim);
    FlagFieldsRoundTrip(o, shim);
    PositionRoundTrip(o, shim);
    AnchoringRoundTrip(o, shim);
  }

  /** Outside shim mode every field but the horizontal anchor and the position
      survives the round trip. */
  lemma OutputRoundTripKeepsFields(o: OutputConfig)
    ensures var r := OutputFromToml(OutputToToml(o, false));
      r.Some? && r.value.(x := o.x, y := o.y, hAnchor := o.hAnchor) == o
  {
    OutputRoundTrip(o, false);
  }

  /** The head properties `updateFromHead` reads which `MetaHead` does not
      declare (width, height, refresh rate, position, relative output,
      transform, adaptive sync, scale, primary, enabled): the model takes
      their values as given, already at the setters' widths. */
  datatype HeadReadings = HeadReadings(
    width: int32,
    height: int32,
    refreshRate: uint64,
    x: int32,
    y: int32,
    relativeTo: string,
    transform: uint16,
    adaptiveSync: uint32,
    scale: real,
    primary: bool,
    enabled: bool)

  /** `Output::updateFromHead`: nothing happens when no head has this
      identifier; otherwise every field but the identifier is taken from the
      head, and `disabled` is the negation of the head being enabled. */
  function UpdateFromHead(o: OutputConfig, heads: seq<MetaHead>, read: MetaHead -> HeadReadings): (r: OutputConfig)
    ensures GetOutputHead(heads, o.identifier).None? ==> r == o
    ensures r.identifier == o.identifier
    ensures GetOutputHead(heads, o.identifier).Some? ==>
      var h := heads[GetOutputHead(heads, o.identifier).value];
      && r.disabled == !read(h).enabled
      && r.hAnchor == h.hAnchor && r.vAnchor == h.vAnchor
      && r.relativeOutput == read(h).relativeTo
      && r.width == read(h).width && r.height == read(h).height && r.refresh == read(h).refreshRate
      && r.x == read(h).x && r.y == read(h).y
      && r.transform == read(h).transform && r.adaptiveSync == read(h).adaptiveSync
      && r.scale == read(h).scale && r.primary == read(h).primary
  {
    match GetOutputHead(heads, o.identifier)
    case None => o
    case Some(i) =>
      var h := heads[i];
      var v := read(h);
      o.(width := v.width, height := v.height, refresh := v.refreshRate, x := v.x, y := v.y,
         relativeOutput := v.relativeTo, hAnchor := h.hAnchor, vAnchor := h.vAnchor,
         transform := v.transform, adaptiveSync := v.adaptiveSync, scale := v.scale,
         primary := v.primary, disabled := !v.enabled)
  }
}
