/**
 * MeshQuantizationCarbon: the explicit position quantization parameters
 * (number of bits, range, origin) chosen for a mesh so that a grid of the
 * requested spacing starting at the minimum corner covers every position.
 */
module MeshQuantization {
  import opened QuantizationMath
  import opened QuantizationBounds

  const MAX_QUANTIZATION_BITS: int := 30
  const MIN_QUANTIZATION_BITS: int := 1
  /** The value of quantization_bits_ before any fill. */
  const UNSET_BITS: int := -1

  /** Whether a bit count marks parameters as set: the header's IsSet, bits != -1. */
  predicate BitsSet(bits: int) {
    bits != UNSET_BITS
  }

  const NEGATIVE_GRID_DELTA: string := "Negative Grid Delta"
  const NOT_THREE_COMPONENTS: string := "The position attribute does not have 3 values."

  /** The guard on grid_delta as written: only a negative spacing is refused. */
  predicate DeltaRejectedAsWritten(delta: real) {
    delta < 0.0
  }

  /** The guard the division by grid_delta needs: a spacing that is not positive is refused. */
  predicate DeltaRejected(delta: real) {
    delta <= 0.0
  }

  /** A zero spacing passes the guard as written, though range / grid_delta then has no value. */
  lemma ZeroDeltaAccepted()
    ensures !DeltaRejectedAsWritten(0.0) && DeltaRejected(0.0)
    ensures forall delta :: !DeltaRejected(delta) ==> !DeltaRejectedAsWritten(delta) && delta > 0.0
  {
  }

  /** Bits and range of a grid. */
  datatype Grid = Grid(bits: int, range: real)

  /** The parameters a fill produces: bits, range and the origin (the minimum corner). */
  datatype Quantization = Quantization(bits: int, range: real, mins: seq<real>)

  datatype FillOutcome = Rejected(message: string) | Filled(q: Quantization)

  /**
   * The clamps applied to the raw bit count: above 30 it is cut to 30 and
   * below 1 raised to 1, the range staying the extent; otherwise the range
   * is widened to 2^bits - 1 steps of delta.
   */
  function ClampedGrid(raw: int, extent: real, delta: real): Grid {
    if raw > MAX_QUANTIZATION_BITS then Grid(MAX_QUANTIZATION_BITS, extent)
    else if raw < MIN_QUANTIZATION_BITS then Grid(MIN_QUANTIZATION_BITS, extent)
    else Grid(raw, ScaledPow2(delta, raw) - delta)
  }

  /** The grid for an extent and a spacing: bits = ceil(log2(extent / delta + 1)), clamped. */
  function CarbonGrid(extent: real, delta: real): Grid
    requires extent > 0.0 && delta > 0.0
  {
    ClampedGrid(CeilLog2(extent / delta + 1.0), extent, delta)
  }

  /** The clamps on a raw count b with delta * 2^(b-1) < extent + delta <= delta * 2^b. */
  lemma ClampedGridCovers(raw: int, extent: real, delta: real)
    requires extent > 0.0 && delta > 0.0
    requires extent + delta <= ScaledPow2(delta, raw) && ScaledPow2(delta, raw - 1) < extent + delta
    ensures var g := ClampedGrid(raw, extent, delta);
            MIN_QUANTIZATION_BITS <= g.bits <= MAX_QUANTIZATION_BITS && extent <= g.range &&
            (extent + delta > ScaledPow2(delta, MAX_QUANTIZATION_BITS) ==> g == Grid(MAX_QUANTIZATION_BITS, extent)) &&
            (extent + delta <= ScaledPow2(delta, MAX_QUANTIZATION_BITS) ==>
               g.range == ScaledPow2(delta, g.bits) - delta && ScaledPow2(delta, g.bits - 1) - delta < extent)
  {
    if raw <= 0 {
      ScaledPow2Monotone(delta, raw, 0);
      assert false;
    }
    if raw > MAX_QUANTIZATION_BITS {
      ScaledPow2Monotone(delta, MAX_QUANTIZATION_BITS, raw - 1);
    } else {
      ScaledPow2Monotone(delta, raw, MAX_QUANTIZATION_BITS);
    }
  }

  /**
   * The grid has between 1 and 30 bits and its range covers the extent.
   * Exactly when extent + delta exceeds 2^30 steps of delta, the bits are
   * cut to 30 and the range is the extent; otherwise the range is
   * 2^bits - 1 steps of delta, and with one bit fewer it would not cover
   * the extent.
   */
  lemma CarbonGridCovers(extent: real, delta: real)
    requires extent > 0.0 && delta > 0.0
    ensures var g := CarbonGrid(extent, delta);
            MIN_QUANTIZATION_BITS <= g.bits <= MAX_QUANTIZATION_BITS && extent <= g.range &&
            (extent + delta > ScaledPow2(delta, MAX_QUANTIZATION_BITS) ==> g == Grid(MAX_QUANTIZATION_BITS, extent)) &&
            (extent + delta <= ScaledPow2(delta, MAX_QUANTIZATION_BITS) ==>
               g.range == ScaledPow2(delta, g.bits) - delta && ScaledPow2(delta, g.bits - 1) - delta < extent)
  {
    var raw := CeilLog2(extent / delta + 1.0);
    ScaledCeilLog2(extent, delta, 1.0);
    ClampedGridCovers(raw, extent, delta);
    assert CarbonGrid(extent, delta) == ClampedGrid(raw, extent, delta);
  }

  /**
   * What FillFromMesh computes: the guard on grid_delta, the check on the
   * number of components, then the minimum corner and the grid.
   */
  function CarbonFill(att: Attribute, delta: real): FillOutcome
    requires WellFormed(att)
    requires !DeltaRejected(delta) && att.numComponents == 3 ==> 1 <= |att.values|
  {
    if DeltaRejected(delta) then Rejected(NEGATIVE_GRID_DELTA)
    else if att.numComponents != 3 then Rejected(NOT_THREE_COMPONENTS)
    else
      ExtentIsLargestSpread(att.values);
      var g := CarbonGrid(Extent(att.values), delta);
      Filled(Quantization(g.bits, g.range, Mins(att.values)))
  }

  /**
   * A fill fails exactly on a spacing that is not positive or an attribute
   * without three components, with the matching message. A successful fill
   * has 1 to 30 bits (so the object reports set), its origin is the
   * component-wise minimum of the positions, and every position lies
   * within range of the origin in every component.
   */
  lemma FillVerdict(att: Attribute, delta: real)
    requires WellFormed(att)
    requires !DeltaRejected(delta) && att.numComponents == 3 ==> 1 <= |att.values|
    ensures var o := CarbonFill(att, delta);
            (o.Filled? <==> delta > 0.0 && att.numComponents == 3) &&
            (delta <= 0.0 ==> o == Rejected(NEGATIVE_GRID_DELTA)) &&
            (delta > 0.0 && att.numComponents != 3 ==> o == Rejected(NOT_THREE_COMPONENTS)) &&
            (o.Filled? ==>
               MIN_QUANTIZATION_BITS <= o.q.bits <= MAX_QUANTIZATION_BITS && BitsSet(o.q.bits) &&
               o.q.mins == Mins(att.values) &&
               forall i, c :: 0 <= i < |att.values| && 0 <= c < 3 ==>
                 o.q.mins[c] <= att.values[i][c] <= o.q.mins[c] + o.q.range)
  {
    if delta > 0.0 && att.numComponents == 3 {
      var vs := att.values;
      BoundsAreTight(vs);
      ExtentIsLargestSpread(vs);
      CarbonGridCovers(Extent(vs), delta);
    }
  }

  /** The triangle (0,0,-1), (0,2,-1), (1,0,-1) with spacing 1: 2 bits, range 3, origin (0,0,-1). */
  lemma ExplicitParameters()
    ensures var att := Attribute(3, [[0.0, 0.0, -1.0], [0.0, 2.0, -1.0], [1.0, 0.0, -1.0]]);
            CarbonFill(att, 1.0) == Filled(Quantization(2, 3.0, [0.0, 0.0, -1.0]))
  {
    var vs := [[0.0, 0.0, -1.0], [0.0, 2.0, -1.0], [1.0, 0.0, -1.0]];
    assert Mins(vs) == [0.0, 0.0, -1.0];
    assert Maxs(vs) == [1.0, 2.0, -1.0];
    assert Extent(vs) == 2.0;
    CeilLog2Unique(3.0, 2);
  }

  class MeshQuantizationCarbon {
    var quantizationBits: int
    var range: real
    var minValues: seq<real>

    /** The origin always has three components. */
    predicate Valid()
      reads this
    {
      |minValues| == 3
    }

    /** No bits chosen, range 0 and origin (0, 0, 0). */
    constructor ()
      ensures Valid() && !IsSet()
      ensures quantizationBits == UNSET_BITS && range == 0.0 && minValues == [0.0, 0.0, 0.0]
    {
      quantizationBits := UNSET_BITS;
      range := 0.0;
      minValues := [0.0, 0.0, 0.0];
    }

    predicate IsSet()
      reads this
    {
      BitsSet(quantizationBits)
    }

    function QuantizationBits(): int
      reads this
    {
      quantizationBits
    }

    function Range(): real
      reads this
    {
      range
    }

    function MinValuesX(): real
      requires Valid()
      reads this
    {
      minValues[0]
    }

    function MinValuesY(): real
      requires Valid()
      reads this
    {
      minValues[1]
    }

    function MinValuesZ(): real
      requires Valid()
      reads this
    {
      minValues[2]
    }

    /**
     * FillFromMesh: on a refused spacing or attribute, returns the message
     * and changes nothing; otherwise returns "" and sets the parameters
     * CarbonFill gives, after which the object reports set.
     */
    method FillFromMesh(att: Attribute, gridDelta: real) returns (msg: string)
      requires Valid() && WellFormed(att)
      requires !DeltaRejected(gridDelta) && att.numComponents == 3 ==> 1 <= |att.values|
      modifies this
      ensures Valid()
      ensures var o := CarbonFill(att, gridDelta);
              (o.Rejected? ==> msg == o.message && unchanged(this)) &&
              (o.Filled? ==>
                 msg == "" && IsSet() && quantizationBits == o.q.bits && range == o.q.range && minValues == o.q.mins)
    {
      if DeltaRejected(gridDelta) {
        return NEGATIVE_GRID_DELTA;
      }
      if att.numComponents != 3 {
        return NOT_THREE_COMPONENTS;
      }
      range := 0.0;
      var maxValues;
      minValues, maxValues := ScanBounds(att.values);
      range := LargestSpread(minValues, maxValues);
      if range == 0.0 {
        range := 1.0;
      }
      ExtentIsLargestSpread(att.values);
      quantizationBits := CeilLog2(range / gridDelta + 1.0);
      if quantizationBits > MAX_QUANTIZATION_BITS {
        quantizationBits := MAX_QUANTIZATION_BITS;
      } else if quantizationBits < MIN_QUANTIZATION_BITS {
        quantizationBits := MIN_QUANTIZATION_BITS;
      } else {
        // grid_delta * (2^bits - 1), by StepsAreProduct
        range := ScaledPow2(gridDelta, quantizationBits) - gridDelta;
      }
      FillVerdict(att, gridDelta);
      msg := "";
    }
  }
}
