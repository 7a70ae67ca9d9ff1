/**
 * The circular painting brush (src/Brush.cpp): full strength inside an
 * inner radius (hardness times the radius), a linear falloff to zero at the
 * outer radius, nothing beyond it.
 */
module Brushes {

  /**
   * Brush strength at distance dist (Brush.cpp:71-78). The source divides by
   * oradius on the ramp; the precondition excludes the one case where that
   * is 0/0 (a hardness of 1 evaluated exactly at the radius).
   */
  function Falloff(radius: real, iradius: real, oradius: real, dist: real): real
    requires dist > radius || dist < iradius || oradius != 0.0
  {
    if dist > radius then 0.0
    else if dist < iradius then 1.0
    else 1.0 - (dist - iradius) / oradius
  }

  /** The ramp's relation between its three radii, as every setter leaves them. */
  predicate Consistent(radius: real, iradius: real, oradius: real)
  {
    iradius + oradius == radius
  }

  lemma RampFraction(d: real, iradius: real, oradius: real)
    requires oradius > 0.0 && iradius <= d <= iradius + oradius
    ensures 0.0 <= (d - iradius) / oradius <= 1.0
  {
  }

  /** A consistent brush's strength is a fraction between 0 and 1. */
  lemma FalloffInUnit(radius: real, iradius: real, oradius: real, dist: real)
    requires Consistent(radius, iradius, oradius)
    requires dist > radius || dist < iradius || oradius != 0.0
    ensures 0.0 <= Falloff(radius, iradius, oradius, dist) <= 1.0
  {
    if iradius <= dist <= radius {
      RampFraction(dist, iradius, oradius);
    }
  }

  /** Full strength inside and at the inner radius, none beyond the outer one, and 0 exactly at the outer one. */
  lemma FalloffEnds(radius: real, iradius: real, oradius: real, dist: real)
    requires Consistent(radius, iradius, oradius) && oradius != 0.0
    ensures dist < iradius && dist <= radius ==> Falloff(radius, iradius, oradius, dist) == 1.0
    ensures dist > radius ==> Falloff(radius, iradius, oradius, dist) == 0.0
    ensures iradius <= radius ==> Falloff(radius, iradius, oradius, radius) == 0.0
    ensures iradius <= radius ==> Falloff(radius, iradius, oradius, iradius) == 1.0
  {
  }

  lemma RampOrder(d1: real, d2: real, iradius: real, oradius: real)
    requires oradius > 0.0 && d1 <= d2
    ensures (d1 - iradius) / oradius <= (d2 - iradius) / oradius
  {
  }

  /** Strength never grows with distance from the centre. */
  lemma FalloffNonIncreasing(radius: real, iradius: real, oradius: real, d1: real, d2: real)
    requires Consistent(radius, iradius, oradius) && oradius != 0.0 && d1 <= d2
    ensures Falloff(radius, iradius, oradius, d2) <= Falloff(radius, iradius, oradius, d1)
  {
    FalloffInUnit(radius, iradius, oradius, d1);
    FalloffInUnit(radius, iradius, oradius, d2);
    if iradius <= d1 && d2 <= radius {
      RampOrder(d1, d2, iradius, oradius);
    }
  }

  /**
   * One texel of the brush's cursor image at normalised distance dist from
   * its centre: on the ramp, rounded by adding 0.5 and truncating in the
   * byte cast (Brush.cpp:31-36).
   */
  function KernelTexel(hardness: real, dist: real): (b: int)
    requires 0.0 <= dist && (dist > 1.0 || dist < hardness || hardness < 1.0)
    ensures 0 <= b <= 255
    ensures dist > 1.0 ==> b == 0
    ensures dist <= 1.0 && dist < hardness ==> b == 255
  {
    if dist > 1.0 then 0
    else if dist < hardness then 255
    else
      KernelRamp(hardness, dist);
      (255.0 * (1.0 - (dist - hardness) / (1.0 - hardness)) + 0.5).Floor
  }

  lemma KernelRamp(hardness: real, dist: real)
    requires hardness <= dist <= 1.0 && hardness < 1.0
    ensures 0.0 <= 255.0 * (1.0 - (dist - hardness) / (1.0 - hardness)) <= 255.0
  {
    RampFraction(dist, hardness, 1.0 - hardness);
  }

  class Brush {
    var radius: real
    var hardness: real
    var iradius: real
    var oradius: real
    /** Set when the cursor image must be regenerated. */
    var update: bool

    /** The inner and outer radii follow from the radius and the hardness. */
    predicate Valid()
      reads this
    {
      iradius == hardness * radius && oradius == radius - iradius
    }

    /** A brush of radius 15 and hardness 0.5 (Brush.cpp:7-15). */
    method Init()
      modifies this
      ensures Valid()
      ensures radius == 15.0 && hardness == 0.5 && iradius == 7.5 && oradius == 7.5
      ensures !update
    {
      radius := 15.0;
      hardness := 0.5;
      iradius := hardness * radius;
      oradius := radius - iradius;
      GenerateTexture();
    }

    /** Regenerating the cursor image clears the update request (Brush.cpp:17-48). */
    method GenerateTexture()
      modifies this`update
      ensures !update
    {
      update := false;
    }

    /** A new hardness moves the inner radius and requests a new cursor image (Brush.cpp:50-56). */
    method SetHardness(h: real)
      modifies this
      ensures Valid()
      ensures hardness == h && radius == old(radius) && update
    {
      hardness := h;
      iradius := hardness * radius;
      oradius := radius - iradius;
      update := true;
    }

    /** A new radius keeps the hardness; the cursor image is not marked stale (Brush.cpp:57-62). */
    method SetRadius(r: real)
      modifies this
      ensures Valid()
      ensures radius == r && hardness == old(hardness) && update == old(update)
    {
      radius := r;
      iradius := hardness * radius;
      oradius := radius - iradius;
    }

    /** getHardness (Brush.cpp:63-66): the inner radius is this share of the radius. */
    function GetHardness(): (h: real)
      reads this
      ensures h == hardness
      ensures Valid() ==> iradius == h * radius && oradius == radius - iradius
    {
      hardness
    }

    /** getRadius (Brush.cpp:67-70): the inner and outer radii add up to it. */
    function GetRadius(): (r: real)
      reads this
      ensures r == radius
      ensures Valid() ==> Consistent(r, iradius, oradius)
    {
      radius
    }

    /** needUpdate (Brush.cpp:83-86): whether the cursor image is stale. */
    function NeedUpdate(): (stale: bool)
      reads this
      ensures stale == update
    {
      update
    }

    /** The brush's strength is defined at dist. */
    predicate Defined(dist: real)
      reads this
    {
      dist > radius || dist < iradius || oradius != 0.0
    }

    /** Strength at distance dist from the centre (Brush.cpp:71-78). */
    function GetValue(dist: real): (v: real)
      reads this
      requires Defined(dist)
      ensures Valid() ==> 0.0 <= v <= 1.0
      ensures dist > radius ==> v == 0.0
      ensures dist <= radius && dist < iradius ==> v == 1.0
    {
      if Valid() then
        FalloffInUnit(radius, iradius, oradius, dist);
        Falloff(radius, iradius, oradius, dist)
      else
        Falloff(radius, iradius, oradius, dist)
    }
  }
}
