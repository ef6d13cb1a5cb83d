/** The configuration files are TOML documents read and written through the
    toml11 library. The model keeps a TOML value as an abstract tree (tables
    are unordered maps, integers are 64-bit) and gives the library's two
    lookups their meaning: `find<T>` throws on a missing key or a value of
    another type, `find_or<T>` answers the default instead. Integral targets
    are reached by `static_cast` from the stored 64-bit integer. */
module Toml {
  import opened Wrappers
  import opened Geometry

  /** The keys the configuration files use. A key outside this list is never
      read, so a table is modelled as a map over these keys only. */
  datatype Key =
    | KIdentifier | KWidth | KHeight | KRefresh | KX | KY
    | KRelativeOutput | KHorizontalAnchor | KVerticalAnchor
    | KRotation | KAdaptiveSync | KPrimary | KDisabled | KScale
    | KName | KPreferred | KIdentifiers | KPrimaryOutput | KOutput

  /** The key as it appears in the file. */
  function KeyName(k: Key): string {
    match k
    case KIdentifier => "identifier"
    case KWidth => "width"
    case KHeight => "height"
    case KRefresh => "refresh"
    case KX => "x"
    case KY => "y"
    case KRelativeOutput => "relative_output"
    case KHorizontalAnchor => "horizontal_anchor"
    case KVerticalAnchor => "vertical_anchor"
    case KRotation => "rotation"
    case KAdaptiveSync => "adaptive_sync"
    case KPrimary => "primary"
    case KDisabled => "disabled"
    case KScale => "scale"
    case KName => "name"
    case KPreferred => "preferred"
    case KIdentifiers => "identifiers"
    case KPrimaryOutput => "primary_output"
    case KOutput => "output"
  }

  datatype Value =
    | TString(s: string)
    | TInt(i: int64)
    | TFloat(f: real)
    | TBool(b: bool)
    | TArray(items: seq<Value>)
    | TTable(fields: map<Key, Value>)

  type Table = map<Key, Value>

  /** `find<std::string>`. */
  function FindString(t: Table, key: Key): (r: Option<string>)
    ensures r.Some? <==> key in t && t[key].TString?
    ensures r.Some? ==> t[key] == TString(r.value)
  {
    if key in t && t[key].TString? then Some(t[key].s) else None
  }

  /** `find<T>` for an integral `T`, before the cast to `T`. */
  function FindInteger(t: Table, key: Key): (r: Option<int64>)
    ensures r.Some? <==> key in t && t[key].TInt?
    ensures r.Some? ==> t[key] == TInt(r.value)
  {
    if key in t && t[key].TInt? then Some(t[key].i) else None
  }

  /** `find<double>`: an integer value is a type error, not a conversion. */
  function FindFloat(t: Table, key: Key): (r: Option<real>)
    ensures r.Some? <==> key in t && t[key].TFloat?
    ensures r.Some? ==> t[key] == TFloat(r.value)
  {
    if key in t && t[key].TFloat? then Some(t[key].f) else None
  }

  /** `find<bool>`. */
  function FindBool(t: Table, key: Key): (r: Option<bool>)
    ensures r.Some? <==> key in t && t[key].TBool?
    ensures r.Some? ==> t[key] == TBool(r.value)
  {
    if key in t && t[key].TBool? then Some(t[key].b) else None
  }

  /** `find<std::vector<toml::value>>`. */
  function FindArray(t: Table, key: Key): (r: Option<seq<Value>>)
    ensures r.Some? <==> key in t && t[key].TArray?
    ensures r.Some? ==> t[key] == TArray(r.value)
  {
    if key in t && t[key].TArray? then Some(t[key].items) else None
  }

  predicate AllStrings(items: seq<Value>) {
    forall i :: 0 <= i < |items| ==> items[i].TString?
  }

  /** The string array an array of strings holds. */
  function Strings(items: seq<Value>): (r: seq<string>)
    requires AllStrings(items)
    ensures |r| == |items|
    ensures forall i :: 0 <= i < |items| ==> items[i] == TString(r[i])
  {
    seq(|items|, i requires 0 <= i < |items| => items[i].s)
  }

  /** A string array as TOML stores it. */
  function StringArray(ss: seq<string>): (v: Value)
    ensures v.TArray? && AllStrings(v.items) && Strings(v.items) == ss
  {
    TArray(seq(|ss|, i requires 0 <= i < |ss| => TString(ss[i])))
  }

  /** `find<std::vector<std::string>>`: every element must be a string. */
  function FindStrings(t: Table, key: Key): (r: Option<seq<string>>)
    ensures r.Some? <==> key in t && t[key].TArray? && AllStrings(t[key].items)
    ensures r.Some? ==> StringArray(r.value) == t[key]
  {
    if key in t && t[key].TArray? && AllStrings(t[key].items) then
      var ss := Strings(t[key].items);
      assert StringArray(ss).items == t[key].items;
      Some(ss)
    else None
  }
}
