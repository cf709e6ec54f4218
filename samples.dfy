/**
 * Raster samples as the numpy code sees them: a float value, or NaN, the
 * marker of a missing or invalid sample.
 */
module Samples {
  import opened Wrappers

  /** A sample: a valid value, or NaN (missing). */
  datatype Sample = Valid(value: real) | Missing

  /**
   * data == no_data for one sample: a valid sample equal to the band's
   * no-data value becomes NaN; with no no-data value (None) nothing matches,
   * and NaN never compares equal, so a missing sample stays missing.
   */
  function MaskNoData(x: Sample, noData: Option<real>): (y: Sample)
    ensures y.Missing? <==> x.Missing? || noData == Some(x.value)
    ensures y.Valid? ==> y == x
  {
    if x.Valid? && noData == Some(x.value) then Missing else x
  }

  /** The values of the valid samples, in order. */
  function ValidValues(s: seq<Sample>): (v: seq<real>)
    ensures |v| <= |s|
  {
    if s == [] then []
    else (if s[0].Valid? then [s[0].value] else []) + ValidValues(s[1..])
  }

  /** ValidValues keeps exactly the values of the valid samples. */
  lemma {:induction false} ValidValuesMembers(s: seq<Sample>)
    ensures forall x :: x in ValidValues(s) <==> Valid(x) in s
  {
    if s != [] {
      ValidValuesMembers(s[1..]);
      assert s == [s[0]] + s[1..];
    }
  }

  /**
   * ValidValues distributes over concatenation, so with ValidValuesSingle it
   * fixes every value's multiplicity and position: each valid sample gives
   * its value once, in order, and each missing sample gives nothing.
   */
  lemma {:induction false} ValidValuesConcat(s: seq<Sample>, t: seq<Sample>)
    ensures ValidValues(s + t) == ValidValues(s) + ValidValues(t)
  {
    if s == [] {
      assert s + t == t;
    } else {
      var head := if s[0].Valid? then [s[0].value] else [];
      calc {
        ValidValues(s + t);
      ==  { assert (s + t)[0] == s[0]; }
        head + ValidValues((s + t)[1..]);
      ==  { assert (s + t)[1..] == s[1..] + t; }
        head + ValidValues(s[1..] + t);
      ==  { ValidValuesConcat(s[1..], t); }
        head + (ValidValues(s[1..]) + ValidValues(t));
      ==
        (head + ValidValues(s[1..])) + ValidValues(t);
      }
    }
  }

  /** One sample gives its value when valid and nothing when missing. */
  lemma ValidValuesSingle(x: Sample)
    ensures ValidValues([x]) == if x.Valid? then [x.value] else []
  {
    assert [x][1..] == [];
  }

  /** A run of values read from a band, each masked against the band's no-data value. */
  function MaskAll(v: seq<real>, noData: Option<real>): seq<Sample> {
    seq(|v|, k requires 0 <= k < |v| => MaskNoData(Valid(v[k]), noData))
  }

  /** Masking a concatenation masks each part. */
  lemma MaskAllConcat(v: seq<real>, w: seq<real>, noData: Option<real>)
    ensures MaskAll(v + w, noData) == MaskAll(v, noData) + MaskAll(w, noData)
  {
    var lhs, rhs := MaskAll(v + w, noData), MaskAll(v, noData) + MaskAll(w, noData);
    forall k | 0 <= k < |lhs| ensures lhs[k] == rhs[k] {
      if k >= |v| {
        assert (v + w)[k] == w[k - |v|];
      }
    }
  }

  /** Values none of which is the no-data value all stay valid, in order. */
  lemma {:induction false} ValidValuesUnmasked(v: seq<real>, noData: Option<real>)
    requires forall k :: 0 <= k < |v| ==> noData != Some(v[k])
    ensures ValidValues(MaskAll(v, noData)) == v
  {
    if v != [] {
      ValidValuesUnmasked(v[1..], noData);
      var s := MaskAll(v, noData);
      assert s[0] == Valid(v[0]);
      assert s[1..] == MaskAll(v[1..], noData);
    }
  }
}
