/**
 * The bounding box FillFromMesh computes over a position attribute: the
 * per-component minima and maxima of its values, and the extent, the
 * largest per-component spread.  Coordinates are exact reals.
 */
module QuantizationBounds {

  /** The POSITION attribute as FillFromMesh reads it: num_components() and its values. */
  datatype Attribute = Attribute(numComponents: nat, values: seq<seq<real>>)

  /** Every value of an attribute has num_components components. */
  predicate WellFormed(att: Attribute) {
    forall i :: 0 <= i < |att.values| ==> |att.values[i]| == att.numComponents
  }

  /** Values of three components each. */
  predicate Points(vs: seq<seq<real>>) {
    forall i :: 0 <= i < |vs| ==> |vs[i]| == 3
  }

  /** Component c's minimum over the first k values, as the update `if (min > v) min = v` keeps it. */
  function MinUpTo(vs: seq<seq<real>>, k: nat, c: nat): real
    requires 1 <= k <= |vs| && Points(vs) && c < 3
  {
    if k == 1 then vs[0][c]
    else var m := MinUpTo(vs, k - 1, c); if m > vs[k - 1][c] then vs[k - 1][c] else m
  }

  /** Component c's maximum over the first k values, as the update `if (max < v) max = v` keeps it. */
  function MaxUpTo(vs: seq<seq<real>>, k: nat, c: nat): real
    requires 1 <= k <= |vs| && Points(vs) && c < 3
  {
    if k == 1 then vs[0][c]
    else var m := MaxUpTo(vs, k - 1, c); if m < vs[k - 1][c] then vs[k - 1][c] else m
  }

  /** The running minimum is at most every value seen, and is one of them. */
  lemma {:induction false} MinUpToIsMin(vs: seq<seq<real>>, k: nat, c: nat)
    requires 1 <= k <= |vs| && Points(vs) && c < 3
    ensures forall i :: 0 <= i < k ==> MinUpTo(vs, k, c) <= vs[i][c]
    ensures exists i :: 0 <= i < k && MinUpTo(vs, k, c) == vs[i][c]
  {
    if k > 1 {
      MinUpToIsMin(vs, k - 1, c);
      var j :| 0 <= j < k - 1 && MinUpTo(vs, k - 1, c) == vs[j][c];
      if MinUpTo(vs, k, c) == vs[k - 1][c] {
        assert 0 <= k - 1 < k;
      } else {
        assert MinUpTo(vs, k, c) == vs[j][c];
      }
    } else {
      assert MinUpTo(vs, k, c) == vs[0][c];
    }
  }

  /** The running maximum is at least every value seen, and is one of them. */
  lemma {:induction false} MaxUpToIsMax(vs: seq<seq<real>>, k: nat, c: nat)
    requires 1 <= k <= |vs| && Points(vs) && c < 3
    ensures forall i :: 0 <= i < k ==> vs[i][c] <= MaxUpTo(vs, k, c)
    ensures exists i :: 0 <= i < k && MaxUpTo(vs, k, c) == vs[i][c]
  {
    if k > 1 {
      MaxUpToIsMax(vs, k - 1, c);
      var j :| 0 <= j < k - 1 && MaxUpTo(vs, k - 1, c) == vs[j][c];
      if MaxUpTo(vs, k, c) == vs[k - 1][c] {
        assert 0 <= k - 1 < k;
      } else {
        assert MaxUpTo(vs, k, c) == vs[j][c];
      }
    } else {
      assert MaxUpTo(vs, k, c) == vs[0][c];
    }
  }

  /** min_values_ after the scan. */
  function Mins(vs: seq<seq<real>>): (r: seq<real>)
    requires 1 <= |vs| && Points(vs)
    ensures |r| == 3
  {
    [MinUpTo(vs, |vs|, 0), MinUpTo(vs, |vs|, 1), MinUpTo(vs, |vs|, 2)]
  }

  /** max_values after the scan. */
  function Maxs(vs: seq<seq<real>>): (r: seq<real>)
    requires 1 <= |vs| && Points(vs)
    ensures |r| == 3
  {
    [MaxUpTo(vs, |vs|, 0), MaxUpTo(vs, |vs|, 1), MaxUpTo(vs, |vs|, 2)]
  }

  /** The minima and maxima are the component-wise bounds of the values, and attained. */
  lemma BoundsAreTight(vs: seq<seq<real>>)
    requires 1 <= |vs| && Points(vs)
    ensures forall i, c :: 0 <= i < |vs| && 0 <= c < 3 ==> Mins(vs)[c] <= vs[i][c] <= Maxs(vs)[c]
    ensures forall c :: 0 <= c < 3 ==> exists i :: 0 <= i < |vs| && Mins(vs)[c] == vs[i][c]
    ensures forall c :: 0 <= c < 3 ==> exists i :: 0 <= i < |vs| && Maxs(vs)[c] == vs[i][c]
  {
    forall c | 0 <= c < 3
      ensures forall i :: 0 <= i < |vs| ==> Mins(vs)[c] <= vs[i][c] <= Maxs(vs)[c]
    {
      MinUpToIsMin(vs, |vs|, c);
      MaxUpToIsMax(vs, |vs|, c);
    }
    forall c | 0 <= c < 3
      ensures exists i :: 0 <= i < |vs| && Mins(vs)[c] == vs[i][c]
    {
      MinUpToIsMin(vs, |vs|, c);
      var lo :| 0 <= lo < |vs| && MinUpTo(vs, |vs|, c) == vs[lo][c];
      assert Mins(vs)[c] == vs[lo][c];
    }
    forall c | 0 <= c < 3
      ensures exists i :: 0 <= i < |vs| && Maxs(vs)[c] == vs[i][c]
    {
      MaxUpToIsMax(vs, |vs|, c);
      var hi :| 0 <= hi < |vs| && MaxUpTo(vs, |vs|, c) == vs[hi][c];
      assert Maxs(vs)[c] == vs[hi][c];
    }
  }

  /** The largest spread max[c] - min[c] over the first c components, starting from 0. */
  function SpreadUpTo(mins: seq<real>, maxs: seq<real>, c: nat): real
    requires |mins| == 3 && |maxs| == 3 && c <= 3
  {
    if c == 0 then 0.0
    else
      var r := SpreadUpTo(mins, maxs, c - 1);
      var dif := maxs[c - 1] - mins[c - 1];
      if dif > r then dif else r
  }

  /** The extent: the largest spread, or 1 when every component is constant. */
  function Extent(vs: seq<seq<real>>): real
    requires 1 <= |vs| && Points(vs)
  {
    var s := SpreadUpTo(Mins(vs), Maxs(vs), 3);
    if s == 0.0 then 1.0 else s
  }

  lemma {:induction false} SpreadUpToIsMax(mins: seq<real>, maxs: seq<real>, c: nat)
    requires |mins| == 3 && |maxs| == 3 && c <= 3
    ensures 0.0 <= SpreadUpTo(mins, maxs, c)
    ensures forall j :: 0 <= j < c ==> maxs[j] - mins[j] <= SpreadUpTo(mins, maxs, c)
    ensures SpreadUpTo(mins, maxs, c) == 0.0 || exists j :: 0 <= j < c && SpreadUpTo(mins, maxs, c) == maxs[j] - mins[j]
  {
    if c > 0 {
      SpreadUpToIsMax(mins, maxs, c - 1);
    }
  }

  /**
   * The extent is positive and covers every component's spread; it is the
   * spread of one component, or 1 when all values coincide.
   */
  lemma ExtentIsLargestSpread(vs: seq<seq<real>>)
    requires 1 <= |vs| && Points(vs)
    ensures Extent(vs) > 0.0
    ensures forall c :: 0 <= c < 3 ==> Maxs(vs)[c] - Mins(vs)[c] <= Extent(vs)
    ensures (exists c :: 0 <= c < 3 && Extent(vs) == Maxs(vs)[c] - Mins(vs)[c]) ||
            (Extent(vs) == 1.0 && forall c :: 0 <= c < 3 ==> Maxs(vs)[c] == Mins(vs)[c])
  {
    BoundsAreTight(vs);
    SpreadUpToIsMax(Mins(vs), Maxs(vs), 3);
    forall c | 0 <= c < 3
      ensures Mins(vs)[c] <= Maxs(vs)[c]
    {
      assert Mins(vs)[c] <= vs[0][c] <= Maxs(vs)[c];
    }
  }

  /**
   * The scan of FillFromMesh: min and max start at value 0, then each later
   * value lowers the minima and raises the maxima component by component.
   */
  method ScanBounds(vs: seq<seq<real>>) returns (mins: seq<real>, maxs: seq<real>)
    requires 1 <= |vs| && Points(vs)
    ensures mins == Mins(vs) && maxs == Maxs(vs)
  {
    mins := vs[0];
    maxs := vs[0];
    for i := 1 to |vs|
      invariant |mins| == 3 && |maxs| == 3
      invariant forall c :: 0 <= c < 3 ==> mins[c] == MinUpTo(vs, i, c) && maxs[c] == MaxUpTo(vs, i, c)
    {
      var attVal := vs[i];
      for c := 0 to 3
        invariant |mins| == 3 && |maxs| == 3
        invariant forall c' :: 0 <= c' < c ==> mins[c'] == MinUpTo(vs, i + 1, c') && maxs[c'] == MaxUpTo(vs, i + 1, c')
        invariant forall c' :: c <= c' < 3 ==> mins[c'] == MinUpTo(vs, i, c') && maxs[c'] == MaxUpTo(vs, i, c')
      {
        if mins[c] > attVal[c] {
          mins := mins[c := attVal[c]];
        }
        if maxs[c] < attVal[c] {
          maxs := maxs[c := attVal[c]];
        }
      }
    }
  }

  /** The spread loop of FillFromMesh, from 0, before the replacement of 0 by 1. */
  method LargestSpread(mins: seq<real>, maxs: seq<real>) returns (range: real)
    requires |mins| == 3 && |maxs| == 3
    ensures range == SpreadUpTo(mins, maxs, 3)
  {
    range := 0.0;
    for c := 0 to 3
      invariant range == SpreadUpTo(mins, maxs, c)
    {
      var dif := maxs[c] - mins[c];
      if dif > range {
        range := dif;
      }
    }
  }
}
