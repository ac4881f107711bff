/** The marshalling bundle of a sparse vector of group elements: the index list, the
    value list and the domain size, in that order. Indices and the domain size are
    `std::size_t` integral fields; each value is a curve-element field. Filling the
    bundle encodes each list element by element and checks nothing. */
module SparseVector {
  import opened Access
  import opened CurveElementDetail

  datatype Option<T> = None | Some(value: T)

  /** Values of `std::size_t` on a 64-bit target. */
  const SIZE_T_BOUND: nat := 0x1_0000_0000_0000_0000
  type SizeT = x: nat | x < SIZE_T_BOUND

  /** `zk::snark::sparse_vector`: indices, values and the domain size, with no
      relation required between them. */
  datatype SparseVec = SparseVec(indices: seq<SizeT>, values: seq<Point>, domainSize: SizeT)

  /** The `sparse_vector` bundle: an array list of `std::size_t` integrals, an array
      list of curve-element fields of type C, and one `std::size_t` integral. */
  datatype SparseVectorField<C> = SparseVectorField(indices: seq<Integral>, values: seq<C>, domainSize: Integral)

  /** `fill_integral_vector`: one integral field per element, in order. */
  function FillIntegralVector(xs: seq<SizeT>, e: Endian): (r: seq<Integral>)
    ensures |r| == |xs|
    ensures forall i :: 0 <= i < |xs| ==> r[i].endian == e && r[i].value == xs[i]
  {
    if xs == [] then [] else FillIntegralVector(xs[..|xs| - 1], e) + [Integral(e, xs[|xs| - 1])]
  }

  /** `fill_curve_element_vector`: one curve-element field per point, in order; the
      curve-element encoding itself is the parameter `fill`. */
  function FillCurveElementVector<C>(ps: seq<Point>, fill: Point -> C): (r: seq<C>)
    ensures |r| == |ps|
    ensures forall i :: 0 <= i < |ps| ==> r[i] == fill(ps[i])
  {
    if ps == [] then [] else FillCurveElementVector(ps[..|ps| - 1], fill) + [fill(ps[|ps| - 1])]
  }

  /** `fill_sparse_vector`: the bundle of the encoded indices, the encoded values and
      the encoded domain size. */
  function FillSparseVector<C>(sv: SparseVec, e: Endian, fill: Point -> C): (r: SparseVectorField<C>)
    ensures |r.indices| == |sv.indices| && |r.values| == |sv.values|
    ensures forall i :: 0 <= i < |sv.indices| ==> r.indices[i] == Integral(e, sv.indices[i])
    ensures forall i :: 0 <= i < |sv.values| ==> r.values[i] == fill(sv.values[i])
    ensures r.domainSize == Integral(e, sv.domainSize)
  {
    SparseVectorField(FillIntegralVector(sv.indices, e), FillCurveElementVector(sv.values, fill), Integral(e, sv.domainSize))
  }

  // ---------------------------------------------------------------------------
  // Reading the bundle back

  /** The index values of a list of integral fields, or None when one of them does
      not fit a `std::size_t`. This reader is the model's own inverse of the fill:
      the fields are declared as `std::size_t` integrals, and the range test stands
      in for that field type. */
  function DecodeIndices(xs: seq<Integral>): (r: Option<seq<SizeT>>)
    ensures r.Some? <==> forall i :: 0 <= i < |xs| ==> xs[i].value < SIZE_T_BOUND
    ensures r.Some? ==> |r.value| == |xs| && forall i :: 0 <= i < |xs| ==> r.value[i] == xs[i].value
  {
    if xs == [] then Some([])
    else
      var last := xs[|xs| - 1];
      match DecodeIndices(xs[..|xs| - 1])
      case None => None
      case Some(front) =>
        if last.value < SIZE_T_BOUND then Some(front + [last.value]) else None
  }

  /** The sparse vector a bundle encodes, given a decoder for its curve-element
      fields; None when an index or the domain size does not fit a `std::size_t`.
      Like `DecodeIndices`, this is the model's own inverse of the fill. */
  function DecodeSparseVector<C>(f: SparseVectorField<C>, unfill: C -> Point): (r: Option<SparseVec>)
    ensures r.Some? <==>
      && (forall i :: 0 <= i < |f.indices| ==> f.indices[i].value < SIZE_T_BOUND)
      && f.domainSize.value < SIZE_T_BOUND
    ensures r.Some? ==>
      && |r.value.indices| == |f.indices|
      && (forall i :: 0 <= i < |f.indices| ==> r.value.indices[i] == f.indices[i].value)
      && |r.value.values| == |f.values|
      && (forall i :: 0 <= i < |f.values| ==> r.value.values[i] == unfill(f.values[i]))
      && r.value.domainSize == f.domainSize.value
  {
    match DecodeIndices(f.indices)
    case None => None
    case Some(indices) =>
      if f.domainSize.value < SIZE_T_BOUND
      then Some(SparseVec(indices, seq(|f.values|, i requires 0 <= i < |f.values| => unfill(f.values[i])), f.domainSize.value))
      else None
  }

  // ---------------------------------------------------------------------------
  // Properties of the bundle

  /** Round trip: with a curve-element decoder that undoes the curve-element encoding
      on the vector's own values, reading a filled bundle gives back the sparse
      vector, indices, values and domain size all in their original order. */
  lemma FillDecodeRoundTrip<C>(sv: SparseVec, e: Endian, fill: Point -> C, unfill: C -> Point)
    requires forall i :: 0 <= i < |sv.values| ==> unfill(fill(sv.values[i])) == sv.values[i]
    ensures DecodeSparseVector(FillSparseVector(sv, e, fill), unfill) == Some(sv)
  {
    var f := FillSparseVector(sv, e, fill);
    var r := DecodeSparseVector(f, unfill);
    assert r.value.indices == sv.indices;
    assert r.value.values == sv.values;
  }

  /** Two sparse vectors have the same bundle exactly when their indices and domain
      sizes agree and their values have the same curve-element encodings, position by
      position: the bundle loses only what the curve-element encoding loses. */
  lemma SameBundleIff<C>(sv1: SparseVec, sv2: SparseVec, e: Endian, fill: Point -> C)
    ensures FillSparseVector(sv1, e, fill) == FillSparseVector(sv2, e, fill) <==>
      && sv1.indices == sv2.indices
      && sv1.domainSize == sv2.domainSize
      && |sv1.values| == |sv2.values|
      && (forall i :: 0 <= i < |sv1.values| ==> fill(sv1.values[i]) == fill(sv2.values[i]))
  {
    var f1, f2 := FillSparseVector(sv1, e, fill), FillSparseVector(sv2, e, fill);
    if f1 == f2 {
      assert |sv1.indices| == |sv2.indices|;
      forall i | 0 <= i < |sv1.indices| ensures sv1.indices[i] == sv2.indices[i] {
        assert f1.indices[i] == f2.indices[i];
      }
      forall i | 0 <= i < |sv1.values| ensures fill(sv1.values[i]) == fill(sv2.values[i]) {
        assert f1.values[i] == f2.values[i];
      }
      assert sv1.indices == sv2.indices;
    }
    if && sv1.indices == sv2.indices && sv1.domainSize == sv2.domainSize && |sv1.values| == |sv2.values|
       && (forall i :: 0 <= i < |sv1.values| ==> fill(sv1.values[i]) == fill(sv2.values[i])) {
      assert f1.values == f2.values;
    }
  }

  /** Filling checks nothing: the two lists keep their lengths even when these differ,
      and every index keeps its value even when it is out of the domain or out of order. */
  lemma FillIsUnchecked<C>(sv: SparseVec, e: Endian, fill: Point -> C)
    ensures var r := FillSparseVector(sv, e, fill);
      && (|r.indices| == |r.values| <==> |sv.indices| == |sv.values|)
      && (forall i :: 0 <= i < |sv.indices| ==> (r.indices[i].value < r.domainSize.value <==> sv.indices[i] < sv.domainSize))
      && (forall i, j :: 0 <= i < j < |sv.indices| ==> (r.indices[i].value < r.indices[j].value <==> sv.indices[i] < sv.indices[j]))
  {
  }
}
