/**
 * The float-channel Color of RayTracer/SceneObjects.hpp (textually repeated
 * in RayTracer/Color.cpp): three real channels, conversion to 8-bit channels
 * by truncation then clamping, and componentwise addition.
 */
module Colors {
  import opened Geometry

  datatype Color = Color(r: real, g: real, b: real)

  /** Color(): every channel 0. */
  const Black := Color(0.0, 0.0, 0.0)

  /** The `min`/`max` members every Color carries, bounding the 8-bit channels. */
  const ChannelMin := 0
  const ChannelMax := 255

  /** C++'s float-to-int conversion, which rounds toward zero. */
  function Truncate(v: real): (i: int)
    ensures 0.0 <= v ==> i as real <= v < i as real + 1.0
    ensures v < 0.0 ==> i as real - 1.0 < v <= i as real
  {
    if v >= 0.0 then v.Floor else -((-v).Floor)
  }

  /** glm::clamp(i, lo, hi) = min(max(i, lo), hi). */
  function Clamp(i: int, lo: int, hi: int): (c: int)
    requires lo <= hi
    ensures lo <= c <= hi
    ensures lo <= i <= hi ==> c == i
  {
    var m := if i < lo then lo else i;
    if hi < m then hi else m
  }

  /** One channel as getR/getG/getB convert it: clamp((int)(v * 255), 0, 255). */
  function ToByte(v: real): (c: int)
    ensures ChannelMin <= c <= ChannelMax
    ensures v >= 1.0 ==> c == ChannelMax
    ensures v * 255.0 < 1.0 ==> c == ChannelMin
    ensures 0.0 <= v * 255.0 < 256.0 ==> c as real <= v * 255.0 < c as real + 1.0
  {
    Clamp(Truncate(v * (ChannelMax as real)), ChannelMin, ChannelMax)
  }

  function GetR(c: Color): (v: int)
    ensures 0 <= v <= 255
  {
    ToByte(c.r)
  }

  function GetG(c: Color): (v: int)
    ensures 0 <= v <= 255
  {
    ToByte(c.g)
  }

  function GetB(c: Color): (v: int)
    ensures 0 <= v <= 255
  {
    ToByte(c.b)
  }

  /** operator+: a fresh color. */
  function Plus(a: Color, b: Color): Color {
    Color(a.r + b.r, a.g + b.g, a.b + b.b)
  }

  /** operator+=: the three in-place channel updates, in source order. */
  function PlusAssign(c: Color, other: Color): Color {
    var afterR := c.(r := c.r + other.r);
    var afterG := afterR.(g := afterR.g + other.g);
    afterG.(b := afterG.b + other.b)
  }

  /** getAsFloat: each channel divided by the channel maximum. */
  function GetAsFloat(c: Color): Vec3 {
    Vec3(c.r / (ChannelMax as real), c.g / (ChannelMax as real), c.b / (ChannelMax as real))
  }

  /** The byte conversion never decreases when the channel grows. */
  lemma ToByteMonotone(v: real, w: real)
    requires v <= w
    ensures ToByte(v) <= ToByte(w)
  {
    assert v * 255.0 <= w * 255.0;
  }

  /** The three getters report bytes. */
  lemma BytesInRange(c: Color)
    ensures 0 <= GetR(c) <= 255 && 0 <= GetG(c) <= 255 && 0 <= GetB(c) <= 255
  {
  }

  /** `+=` leaves the color holding exactly what `+` returns. */
  lemma PlusAssignIsPlus(c: Color, other: Color)
    ensures PlusAssign(c, other) == Plus(c, other)
  {
  }

  lemma PlusCommutative(a: Color, b: Color)
    ensures Plus(a, b) == Plus(b, a)
  {
  }

  lemma PlusAssociative(a: Color, b: Color, c: Color)
    ensures Plus(Plus(a, b), c) == Plus(a, Plus(b, c))
  {
  }

  lemma BlackIsIdentity(a: Color)
    ensures Plus(a, Black) == a && Plus(Black, a) == a
  {
  }

  /** Scaling getAsFloat's result back by 255 recovers every channel. */
  lemma GetAsFloatRoundTrip(c: Color)
    ensures GetAsFloat(c).x * 255.0 == c.r
    ensures GetAsFloat(c).y * 255.0 == c.g
    ensures GetAsFloat(c).z * 255.0 == c.b
  {
  }
}
