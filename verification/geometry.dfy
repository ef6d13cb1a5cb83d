/** Qt's value types for geometry: `QPoint`, `QSize` and `QRect`, with the
    predicates and operations the output configuration core relies on, plus the
    C++ arithmetic (truncating division, `qRound`) that differs from Dafny's. */
module Geometry {

  /** The unsigned integer widths of the C++ fields that carry them. */
  type uint8 = x: int | 0 <= x < 0x100
  type uint16 = x: int | 0 <= x < 0x1_0000
  type uint32 = x: int | 0 <= x < 0x1_0000_0000
  type uint64 = x: int | 0 <= x < 0x1_0000_0000_0000_0000

  /** The signed widths: `qint16`, C++ `int` and the `std::int64_t` that TOML
      integers are. */
  type int16 = x: int | -0x8000 <= x < 0x8000
  type int32 = x: int | -0x8000_0000 <= x < 0x8000_0000
  type int64 = x: int | -0x8000_0000_0000_0000 <= x < 0x8000_0000_0000_0000

  /** Conversion of an `int` to a `qint16` field: two's-complement wrap-around. */
  function Int16Of(v: int): (r: int16)
    ensures (r - v) % 0x1_0000 == 0
    ensures -0x8000 <= v < 0x8000 ==> r == v
  {
    (v + 0x8000) % 0x1_0000 - 0x8000
  }

  /** Conversion of an integer to an `int32_t`: two's-complement wrap-around. */
  function Int32Of(v: int): (r: int32)
    ensures (r - v) % 0x1_0000_0000 == 0
    ensures -0x8000_0000 <= v < 0x8000_0000 ==> r == v
  {
    (v + 0x8000_0000) % 0x1_0000_0000 - 0x8000_0000
  }

  /** Conversion of an integer to a `quint8`: the low eight bits. */
  function Uint8Of(v: int): (r: uint8)
    ensures (r - v) % 0x100 == 0
    ensures 0 <= v < 0x100 ==> r == v
  {
    v % 0x100
  }

  /** Conversion of an integer to a `std::int64_t`: two's-complement wrap-around. */
  function Int64Of(v: int): (r: int64)
    ensures (r - v) % 0x1_0000_0000_0000_0000 == 0
    ensures -0x8000_0000_0000_0000 <= v < 0x8000_0000_0000_0000 ==> r == v
  {
    (v + 0x8000_0000_0000_0000) % 0x1_0000_0000_0000_0000 - 0x8000_0000_0000_0000
  }

  /** Conversion of an integer to a `quint16`: the low sixteen bits. */
  function Uint16Of(v: int): (r: uint16)
    ensures (r - v) % 0x1_0000 == 0
    ensures 0 <= v < 0x1_0000 ==> r == v
  {
    v % 0x1_0000
  }

  /** Conversion of an integer to a `uint32_t`: the low thirty-two bits. */
  function Uint32Of(v: int): (r: uint32)
    ensures (r - v) % 0x1_0000_0000 == 0
    ensures 0 <= v < 0x1_0000_0000 ==> r == v
  {
    v % 0x1_0000_0000
  }

  /** Conversion of an integer to a `qulonglong`: the low sixty-four bits. */
  function Uint64Of(v: int): (r: uint64)
    ensures (r - v) % 0x1_0000_0000_0000_0000 == 0
    ensures 0 <= v < 0x1_0000_0000_0000_0000 ==> r == v
  {
    v % 0x1_0000_0000_0000_0000
  }

  /** An unsigned 32-bit value read with `toInt` and cast back to `uint32_t`
      is unchanged. */
  lemma Uint32ThroughInt32(v: uint32)
    ensures Uint32Of(Int32Of(v)) == v
  {
    if v >= 0x8000_0000 {
      assert Int32Of(v) == v - 0x1_0000_0000;
    }
  }

  /** An unsigned 64-bit value stored in a signed 64-bit slot and read back
      as unsigned is unchanged. */
  lemma Uint64ThroughInt64(v: uint64)
    ensures Uint64Of(Int64Of(v)) == v
  {
    if v >= 0x8000_0000_0000_0000 {
      assert Int64Of(v) == v - 0x1_0000_0000_0000_0000;
    }
  }

  datatype Point = Point(x: int, y: int)

  /** `QPoint::isNull`. */
  predicate PointIsNull(p: Point) {
    p.x == 0 && p.y == 0
  }

  datatype Size = Size(w: int, h: int)

  /** `QSize()`, the default-constructed (invalid) size. */
  const InvalidSize := Size(-1, -1)

  /** `QSize::isEmpty`: either side is less than one. */
  predicate SizeIsEmpty(s: Size) {
    s.w < 1 || s.h < 1
  }

  /** `QSize::isNull`: both sides are zero. */
  predicate SizeIsNull(s: Size) {
    s.w == 0 && s.h == 0
  }

  /** `QSize::isValid`: neither side is negative. */
  predicate SizeIsValid(s: Size) {
    s.w >= 0 && s.h >= 0
  }

  function Transposed(s: Size): (t: Size)
    ensures t.w == s.h && t.h == s.w
  {
    Size(s.h, s.w)
  }

  /** C++ integer division, which truncates toward zero. */
  function TruncDiv(a: int, b: int): (q: int)
    requires b > 0
    ensures a >= 0 ==> 0 <= a - q * b < b
    ensures a < 0 ==> -b < a - q * b <= 0
  {
    if a >= 0 then a / b else -((-a) / b)
  }

  /** Conversion of a floating value to `int`, which truncates toward zero. */
  function TruncReal(x: real): (n: int)
    ensures x >= 0.0 ==> n as real <= x < n as real + 1.0
    ensures x < 0.0 ==> n as real - 1.0 < x <= n as real
  {
    if x >= 0.0 then x.Floor else -((-x).Floor)
  }

  /** `qRound` on a double: nearest integer, halves away from zero. */
  function QRound(d: real): (n: int)
    ensures d - 0.5 <= n as real <= d + 0.5
    ensures d >= 0.0 ==> n as real - 0.5 <= d < n as real + 0.5
    ensures d < 0.0 ==> n as real - 0.5 < d <= n as real + 0.5
  {
    if d >= 0.0 then TruncReal(d + 0.5) else TruncReal(d - 0.5)
  }

  /** `QSize * qreal`: each side multiplied and rounded with `qRound`. */
  function ScaleSize(s: Size, k: real): (r: Size)
    ensures k == 1.0 ==> r == s
  {
    Size(QRound(s.w as real * k), QRound(s.h as real * k))
  }

  /** A `QRect`, kept as Qt keeps it: the corner coordinates, with the right and
      bottom edges inclusive (`x2 == x1 + width - 1`). */
  datatype Rect = Rect(x1: int, y1: int, x2: int, y2: int)

  /** `QRect(QPoint, QSize)`. */
  function RectAt(p: Point, s: Size): (r: Rect)
    ensures RectWidth(r) == s.w && RectHeight(r) == s.h
    ensures r.x1 == p.x && r.y1 == p.y
  {
    Rect(p.x, p.y, p.x + s.w - 1, p.y + s.h - 1)
  }

  /** `QRect(x, y, w, h)`. */
  function RectOf(x: int, y: int, w: int, h: int): Rect {
    RectAt(Point(x, y), Size(w, h))
  }

  function RectWidth(r: Rect): int {
    r.x2 - r.x1 + 1
  }

  function RectHeight(r: Rect): int {
    r.y2 - r.y1 + 1
  }

  /** `QRect::isNull`: width and height are both zero. */
  predicate RectIsNull(r: Rect) {
    RectWidth(r) == 0 && RectHeight(r) == 0
  }

  /** `QRect::isEmpty`: width or height is not positive. */
  predicate RectIsEmpty(r: Rect) {
    r.x1 > r.x2 || r.y1 > r.y2
  }

  /** `QRect()`; the same coordinates as `QRect(0, 0, 0, 0)`. */
  const NullRect := Rect(0, 0, -1, -1)

  function Min(a: int, b: int): int {
    if a <= b then a else b
  }

  function Max(a: int, b: int): int {
    if a <= b then b else a
  }

  /** `QRect::united` (`operator|`): a null rectangle yields the other one;
      otherwise the bounding rectangle of both, each normalised first. */
  function United(a: Rect, b: Rect): (r: Rect)
    ensures RectIsNull(a) ==> r == b
    ensures !RectIsNull(a) && RectIsNull(b) ==> r == a
    ensures Proper(a) && Proper(b) ==> Proper(r) && Contains(r, a) && Contains(r, b)
    ensures Proper(a) && Proper(b) ==> forall c :: Contains(c, a) && Contains(c, b) ==> Contains(c, r)
  {
    if RectIsNull(a) then b
    else if RectIsNull(b) then a
    else
      var (l1, r1) := if a.x2 - a.x1 + 1 < 0 then (a.x2, a.x1) else (a.x1, a.x2);
      var (l2, r2) := if b.x2 - b.x1 + 1 < 0 then (b.x2, b.x1) else (b.x1, b.x2);
      var (t1, b1) := if a.y2 - a.y1 + 1 < 0 then (a.y2, a.y1) else (a.y1, a.y2);
      var (t2, b2) := if b.y2 - b.y1 + 1 < 0 then (b.y2, b.y1) else (b.y1, b.y2);
      Rect(Min(l1, l2), Min(t1, t2), Max(r1, r2), Max(b1, b2))
  }

  /** Every point of `inner` lies in `outer`. */
  predicate Contains(outer: Rect, inner: Rect) {
    outer.x1 <= inner.x1 && inner.x2 <= outer.x2 && outer.y1 <= inner.y1 && inner.y2 <= outer.y2
  }

  /** Rectangles with positive width and height. */
  predicate Proper(r: Rect) {
    r.x1 <= r.x2 && r.y1 <= r.y2
  }
}
