/**
 * The MeshQuantizationCarbon of the JavaScript bindings: the same scan of
 * the positions, but bits = ceil(log2(extent / delta)) with only the upper
 * clamp, a range of 2^bits steps of delta, and a bool result.
 */
module EmbindQuantization {
  import opened Results
  import opened QuantizationMath
  import opened QuantizationBounds
  import opened MeshQuantization

  /** IsSet as written in the bindings: bits == -1, the value of an object never filled. */
  predicate BitsSetAsWritten(bits: int) {
    bits == UNSET_BITS
  }

  /** The bindings' IsSet answers the opposite of the header's on every bit count, the unset -1 included. */
  lemma IsSetInverted()
    ensures BitsSetAsWritten(UNSET_BITS) && !BitsSet(UNSET_BITS)
    ensures forall bits :: BitsSetAsWritten(bits) <==> !BitsSet(bits)
  {
  }

  /** The upper clamp alone: above 30 bits, 30 and the extent; otherwise 2^bits steps of delta. */
  function EmbindClampedGrid(raw: int, extent: real, delta: real): Grid {
    if raw > MAX_QUANTIZATION_BITS then Grid(MAX_QUANTIZATION_BITS, extent)
    else Grid(raw, ScaledPow2(delta, raw))
  }

  /** The grid of the bindings: bits = ceil(log2(extent / delta)), clamped above. */
  function EmbindGrid(extent: real, delta: real): Grid
    requires extent > 0.0 && delta > 0.0
  {
    EmbindClampedGrid(CeilLog2(extent / delta), extent, delta)
  }

  /** The clamp on a raw count b with delta * 2^(b-1) < extent <= delta * 2^b. */
  lemma EmbindClampedGridCovers(raw: int, extent: real, delta: real)
    requires extent > 0.0 && delta > 0.0
    requires extent <= ScaledPow2(delta, raw) && ScaledPow2(delta, raw - 1) < extent
    ensures var g := EmbindClampedGrid(raw, extent, delta);
            g.bits <= MAX_QUANTIZATION_BITS && extent <= g.range &&
            (extent > ScaledPow2(delta, MAX_QUANTIZATION_BITS) ==> g == Grid(MAX_QUANTIZATION_BITS, extent)) &&
            (extent <= ScaledPow2(delta, MAX_QUANTIZATION_BITS) ==>
               g.range == ScaledPow2(delta, g.bits) && ScaledPow2(delta, g.bits - 1) < extent)
  {
    if raw > MAX_QUANTIZATION_BITS {
      ScaledPow2Monotone(delta, MAX_QUANTIZATION_BITS, raw - 1);
    } else {
      ScaledPow2Monotone(delta, raw, MAX_QUANTIZATION_BITS);
    }
  }

  /**
   * The bits never exceed 30 and the range covers the extent. Exactly when
   * the extent exceeds 2^30 steps of delta the bits are cut to 30 and the
   * range is the extent; otherwise the range is 2^bits steps of delta and
   * half of it falls short of the extent. Nothing bounds the bits from
   * below: an extent under delta gives 0 bits or fewer.
   */
  lemma EmbindGridCovers(extent: real, delta: real)
    requires extent > 0.0 && delta > 0.0
    ensures var g := EmbindGrid(extent, delta);
            g.bits <= MAX_QUANTIZATION_BITS && extent <= g.range &&
            (extent > ScaledPow2(delta, MAX_QUANTIZATION_BITS) ==> g == Grid(MAX_QUANTIZATION_BITS, extent)) &&
            (extent <= ScaledPow2(delta, MAX_QUANTIZATION_BITS) ==>
               g.range == ScaledPow2(delta, g.bits) && ScaledPow2(delta, g.bits - 1) < extent) &&
            (extent <= delta ==> g.bits <= 0)
  {
    var raw := CeilLog2(extent / delta);
    ScaledCeilLog2(extent, delta, 0.0);
    EmbindClampedGridCovers(raw, extent, delta);
    assert EmbindGrid(extent, delta) == EmbindClampedGrid(raw, extent, delta);
    if extent <= delta && raw > 0 {
      ScaledPow2Monotone(delta, 0, raw - 1);
      assert false;
    }
  }

  /** What the bindings' FillFromMesh computes; None stands for the false result. */
  function EmbindFill(att: Attribute, delta: real): Option<Quantization>
    requires WellFormed(att)
    requires !DeltaRejected(delta) && att.numComponents == 3 ==> 1 <= |att.values|
  {
    if DeltaRejected(delta) || att.numComponents != 3 then None
    else
      ExtentIsLargestSpread(att.values);
      var g := EmbindGrid(Extent(att.values), delta);
      Some(Quantization(g.bits, g.range, Mins(att.values)))
  }

  /**
   * A fill fails exactly on a spacing that is not positive or an attribute
   * without three components. A successful fill has at most 30 bits, its
   * origin is the component-wise minimum of the positions, and every
   * position lies within range of the origin in every component.
   */
  lemma EmbindFillVerdict(att: Attribute, delta: real)
    requires WellFormed(att)
    requires !DeltaRejected(delta) && att.numComponents == 3 ==> 1 <= |att.values|
    ensures var o := EmbindFill(att, delta);
            (o.Some? <==> delta > 0.0 && att.numComponents == 3) &&
            (o.Some? ==>
               o.value.bits <= MAX_QUANTIZATION_BITS && o.value.mins == Mins(att.values) &&
               forall i, c :: 0 <= i < |att.values| && 0 <= c < 3 ==>
                 o.value.mins[c] <= att.values[i][c] <= o.value.mins[c] + o.value.range)
  {
    if delta > 0.0 && att.numComponents == 3 {
      var vs := att.values;
      BoundsAreTight(vs);
      ExtentIsLargestSpread(vs);
      EmbindGridCovers(Extent(vs), delta);
    }
  }

  /**
   * The triangle (0,0,-1), (0,2,-1), (1,0,-1) with spacing 1: 1 bit,
   * range 2, origin (0,0,-1); the bindings' IsSet then answers false.
   */
  lemma EmbindExplicitParameters()
    ensures var att := Attribute(3, [[0.0, 0.0, -1.0], [0.0, 2.0, -1.0], [1.0, 0.0, -1.0]]);
            var o := EmbindFill(att, 1.0);
            o == Some(Quantization(1, 2.0, [0.0, 0.0, -1.0])) && BitsSet(o.value.bits) && !BitsSetAsWritten(o.value.bits)
  {
    var vs := [[0.0, 0.0, -1.0], [0.0, 2.0, -1.0], [1.0, 0.0, -1.0]];
    assert Mins(vs) == [0.0, 0.0, -1.0];
    assert Maxs(vs) == [1.0, 2.0, -1.0];
    assert Extent(vs) == 2.0;
    CeilLog2Unique(2.0, 1);
  }

  /** Two points half a spacing apart: the fill succeeds with -1 bits, the value that means unset. */
  lemma EmbindBitsReachUnset()
    ensures var att := Attribute(3, [[0.0, 0.0, 0.0], [0.5, 0.0, 0.0]]);
            EmbindFill(att, 1.0) == Some(Quantization(UNSET_BITS, 0.5, [0.0, 0.0, 0.0]))
  {
    var vs := [[0.0, 0.0, 0.0], [0.5, 0.0, 0.0]];
    assert Mins(vs) == [0.0, 0.0, 0.0];
    assert Maxs(vs) == [0.5, 0.0, 0.0];
    assert Extent(vs) == 0.5;
    CeilLog2Unique(0.5, -1);
  }

  class MeshQuantizationCarbon {
    var quantizationBits: int
    var range: real
    var minValues: seq<real>

    /** The origin always has three components. */
    predicate Valid()
      reads this
    {
      |minValues| == 3
    }

    /** No bits chosen, range 0 and origin (0, 0, 0); IsSet as written already answers true. */
    constructor ()
      ensures Valid() && !IsSet() && IsSetAsWritten()
      ensures quantizationBits == UNSET_BITS && range == 0.0 && minValues == [0.0, 0.0, 0.0]
    {
      quantizationBits := UNSET_BITS;
      range := 0.0;
      minValues := [0.0, 0.0, 0.0];
    }

    predicate IsSetAsWritten()
      reads this
    {
      BitsSetAsWritten(quantizationBits)
    }

    predicate IsSet()
      reads this
    {
      BitsSet(quantizationBits)
    }

    function QuantizationBits(): int
      reads this
    {
      quantizationBits
    }

    function Range(): real
      reads this
    {
      range
    }

    function MinValuesX(): real
      requires Valid()
      reads this
    {
      minValues[0]
    }

    function MinValuesY(): real
      requires Valid()
      reads this
    {
      minValues[1]
    }

    function MinValuesZ(): real
      requires Valid()
      reads this
    {
      minValues[2]
    }

    /**
     * FillFromMesh: on a refused spacing or attribute, returns false and
     * changes nothing; otherwise returns true and sets the parameters
     * EmbindFill gives.
     */
    method FillFromMesh(att: Attribute, gridDelta: real) returns (ok: bool)
      requires Valid() && WellFormed(att)
      requires !DeltaRejected(gridDelta) && att.numComponents == 3 ==> 1 <= |att.values|
      modifies this
      ensures Valid()
      ensures var o := EmbindFill(att, gridDelta);
              ok == o.Some? &&
              (!ok ==> unchanged(this)) &&
              (ok ==> quantizationBits == o.value.bits && range == o.value.range && minValues == o.value.mins)
    {
      if DeltaRejected(gridDelta) {
        return false;
      }
      if att.numComponents != 3 {
        return false;
      }
      range := 0.0;
      minValues := [0.0, 0.0, 0.0];
      var maxValues;
      minValues, maxValues := ScanBounds(att.values);
      range := LargestSpread(minValues, maxValues);
      if range == 0.0 {
        range := 1.0;
      }
      ExtentIsLargestSpread(att.values);
      quantizationBits := CeilLog2(range / gridDelta);
      if quantizationBits > MAX_QUANTIZATION_BITS {
        quantizationBits := MAX_QUANTIZATION_BITS;
      } else {
        // grid_delta * 2^bits, by ScaledPow2IsProduct
        range := ScaledPow2(gridDelta, quantizationBits);
      }
      ok := true;
    }
  }
}
