/** The compressed-point writers: `write_data` for G1 and for G2 group elements.

    Both convert the point to affine form, compute its metadata unit with compression
    on, write the affine X into the buffer unless the I flag is set, and finally OR the
    metadata unit into the first unit. A G1 X is one prime-field integer written at the
    caller's position; a G2 X has two components, the first written at the caller's
    position and the second `ComponentUnits` units further on. The writers take the
    caller's iterator by reference and assume the inner `write_data` leaves it where it
    was; the G2 writer advances only a local copy. The position is therefore a plain
    offset that is never returned. */
module CurveElement {
  import opened Bits
  import opened Access
  import opened FieldElement
  import opened CurveElementDetail

  /** `I_bit & m_unit` is nonzero: bit 6 of the metadata unit. */
  predicate InfinityFlagged(m: nat)
  {
    Bit(m, 6)
  }

  /** `sizeof_field_element_chunks_count`: the number of units one component of a G2
      coordinate takes, `(tsize / arity) / chunk_bits` plus one for a nonzero remainder.
      Its units hold the component's `tsize / arity` bits, and one unit fewer would not. */
  function ComponentUnits(tsize: nat, arity: nat, unitBytes: UnitSize): (k: nat)
    requires arity >= 1
    ensures k * ChunkBits(unitBytes) >= tsize / arity
    ensures k > 0 ==> (k - 1) * ChunkBits(unitBytes) < tsize / arity
  {
    var s, cb := tsize / arity, ChunkBits(unitBytes);
    CeilingBounds(s, cb);
    s / cb + (if s % cb != 0 then 1 else 0)
  }

  /** The G2 coordinate field: a quadratic extension of a prime field. */
  predicate IsG2Field(F: Field)
  {
    F.ExtensionField? && F.degree == 2 && F.underlying.PrimeField?
  }

  /** The arity of a G2 coordinate field, the divisor of the chunk count. */
  const G2_ARITY: nat := 2

  lemma G2FieldArity(F: Field)
    requires IsG2Field(F)
    ensures Arity(F) == G2_ARITY
  {
  }

  /** `X.data[i].data.convert_to<modulus_type>()`: the integer of component i of a G2 coordinate. */
  function ComponentValue(F: Field, x: Elem, i: nat): nat
    requires IsG2Field(F) && Member(F, x) && i < 2
  {
    assert Member(F.underlying, x.data[i]);
    x.data[i].value
  }

  /** The buffer after the G1 writer, given the affine point P: X's units at `off`
      unless P is at infinity, then the metadata OR-ed into the unit at `off`. */
  function G1Image(buf: seq<nat>, off: nat, P: Point, F: Field, e: Endian, unitBytes: UnitSize): (r: seq<nat>)
    requires ValidField(F) && !IsExtended(F) && PointOver(F, P)
    requires off < |buf|
    requires P.Z != Zero(F) ==> off + |WriteUnits(P.X.value, e, unitBytes)| <= |buf|
    ensures |r| == |buf|
  {
    var m := EvaluateMUnit(F, P, true);
    var w := if InfinityFlagged(m) then buf else Splice(buf, off, WriteUnits(P.X.value, e, unitBytes));
    w[off := Or(w[off], m)]
  }

  /** The buffer after the G2 writer, given the affine point P and the component offset
      `skip` in units: the two coordinate writes unless P is at infinity, then the
      metadata OR-ed into the unit at `off`. */
  function G2Image(buf: seq<nat>, off: nat, P: Point, F: Field, skip: nat, e: Endian, unitBytes: UnitSize): (r: seq<nat>)
    requires ValidField(F) && IsG2Field(F) && PointOver(F, P)
    requires off < |buf|
    requires P.Z != Zero(F) ==>
               && off + |WriteUnits(ComponentValue(F, P.X, 0), e, unitBytes)| <= |buf|
               && off + skip + |WriteUnits(ComponentValue(F, P.X, 1), e, unitBytes)| <= |buf|
    ensures |r| == |buf|
  {
    var m := EvaluateMUnit(F, P, true);
    var w := if InfinityFlagged(m) then buf
             else
               var d0 := WriteUnits(ComponentValue(F, P.X, 0), e, unitBytes);
               var d1 := WriteUnits(ComponentValue(F, P.X, 1), e, unitBytes);
               Splice(Splice(buf, off, d0), off + skip, d1);
    w[off := Or(w[off], m)]
  }

  /** `write_data` for a G1 group element. */
  method WriteG1(a: array<nat>, off: nat, point: Point, toAffine: Point -> Point,
                 F: Field, e: Endian, unitBytes: UnitSize)
    requires ValidField(F) && !IsExtended(F) && PointOver(F, toAffine(point))
    requires off < a.Length
    requires toAffine(point).Z != Zero(F) ==>
               off + |WriteUnits(toAffine(point).X.value, e, unitBytes)| <= a.Length
    modifies a
    ensures a[..] == G1Image(old(a[..]), off, toAffine(point), F, e, unitBytes)
  {
    var pointAffine := toAffine(point);
    var mUnit := EvaluateMUnit(F, pointAffine, true);
    if !InfinityFlagged(mUnit) {
      WriteData(a, off, pointAffine.X.value, e, unitBytes);
    }
    a[off] := Or(a[off], mUnit);
  }

  /** `write_data` for a G2 group element; `tsize` is the bit size of the whole X. */
  method WriteG2(a: array<nat>, off: nat, point: Point, toAffine: Point -> Point,
                 F: Field, tsize: nat, e: Endian, unitBytes: UnitSize)
    requires ValidField(F) && IsG2Field(F) && PointOver(F, toAffine(point))
    requires off < a.Length
    requires toAffine(point).Z != Zero(F) ==>
               && off + |WriteUnits(ComponentValue(F, toAffine(point).X, 0), e, unitBytes)| <= a.Length
               && off + ComponentUnits(tsize, G2_ARITY, unitBytes)
                  + |WriteUnits(ComponentValue(F, toAffine(point).X, 1), e, unitBytes)| <= a.Length
    modifies a
    ensures a[..] == G2Image(old(a[..]), off, toAffine(point), F, ComponentUnits(tsize, G2_ARITY, unitBytes), e, unitBytes)
  {
    ghost var buf := a[..];
    var chunksCount := ComponentUnits(tsize, G2_ARITY, unitBytes);
    var pointAffine := toAffine(point);
    var mUnit := EvaluateMUnit(F, pointAffine, true);
    if !InfinityFlagged(mUnit) {
      ghost var d0 := WriteUnits(ComponentValue(F, pointAffine.X, 0), e, unitBytes);
      ghost var d1 := WriteUnits(ComponentValue(F, pointAffine.X, 1), e, unitBytes);
      var writeIter := off;
      WriteData(a, writeIter, ComponentValue(F, pointAffine.X, 0), e, unitBytes);
      assert a[..] == Splice(buf, writeIter, WriteUnits(ComponentValue(F, pointAffine.X, 0), e, unitBytes));
      ghost var mid := a[..];
      writeIter := writeIter + chunksCount;
      WriteData(a, writeIter, ComponentValue(F, pointAffine.X, 1), e, unitBytes);
      assert a[..] == Splice(mid, writeIter, WriteUnits(ComponentValue(F, pointAffine.X, 1), e, unitBytes));
      ghost var w := a[..];
      assert w == Splice(Splice(buf, off, d0), off + chunksCount, d1);
      a[off] := Or(a[off], mUnit);
      assert a[..] == w[off := Or(w[off], mUnit)];
      G2ImageAwayFromInfinity(buf, off, pointAffine, F, chunksCount, e, unitBytes);
    } else {
      a[off] := Or(a[off], mUnit);
      assert a[..] == buf[off := Or(buf[off], mUnit)];
      G2ImageAtInfinity(buf, off, pointAffine, F, chunksCount, e, unitBytes);
    }
  }

  // ---------------------------------------------------------------------------
  // Properties of the written buffer

  /** At infinity no coordinate is written: every unit but the first is untouched, and
      the first keeps all its bits and gains exactly C and I. */
  lemma G1AtInfinity(buf: seq<nat>, off: nat, P: Point, F: Field, e: Endian, unitBytes: UnitSize)
    requires ValidField(F) && !IsExtended(F) && PointOver(F, P)
    requires off < |buf| && P.Z == Zero(F)
    ensures var r := G1Image(buf, off, P, F, e, unitBytes);
      && (forall i :: 0 <= i < |buf| && i != off ==> r[i] == buf[i])
      && (forall k: nat :: Bit(r[off], k) <==> Bit(buf[off], k) || k == 7 || k == 6)
  {
    MUnitFlags(F, P, true);
    var m := EvaluateMUnit(F, P, true);
    forall k: nat ensures Bit(Or(buf[off], m), k) <==> Bit(buf[off], k) || Bit(m, k) {
      OrBit(buf[off], m, k);
    }
  }

  /** Away from infinity the G1 writer leaves X's units from `off` on and touches
      nothing else; the first unit holds X's first unit with C set, S set exactly when
      Y has sign true, and no other bit added. */
  lemma G1Written(buf: seq<nat>, off: nat, P: Point, F: Field, e: Endian, unitBytes: UnitSize)
    requires ValidField(F) && !IsExtended(F) && PointOver(F, P)
    requires off < |buf| && P.Z != Zero(F)
    requires off + |WriteUnits(P.X.value, e, unitBytes)| <= |buf|
    ensures var r, ds := G1Image(buf, off, P, F, e, unitBytes), WriteUnits(P.X.value, e, unitBytes);
      && (forall i :: 0 < i < |ds| ==> r[off + i] == ds[i])
      && (forall i :: 0 <= i < |buf| && !(off <= i < off + |ds|) ==> r[i] == buf[i])
      && (forall k: nat :: Bit(r[off], k) <==> Bit(ds[0], k) || k == 7 || (k == 5 && SignGfp(F, P.Y)))
  {
    MUnitFlags(F, P, true);
    var m := EvaluateMUnit(F, P, true);
    var ds := WriteUnits(P.X.value, e, unitBytes);
    var w := Splice(buf, off, ds);
    SpliceContents(buf, off, ds);
    var r := G1Image(buf, off, P, F, e, unitBytes);
    assert r == w[off := Or(w[off], m)];
    assert w[off] == ds[0];
    forall i | 0 < i < |ds| ensures r[off + i] == ds[i] {
      assert r[off + i] == w[off + i];
    }
    CompressedFirstUnit(F, P, ds[0]);
  }

  /** For any unit width, when X's first unit is below 2^5 (every bit from 5 up is
      free), the metadata can be read back from the first unit: its bits from 5 up are
      the metadata unit's and its low five bits are X's. */
  lemma G1FlagsReadable(buf: seq<nat>, off: nat, P: Point, F: Field, e: Endian, unitBytes: UnitSize)
    requires ValidField(F) && !IsExtended(F) && PointOver(F, P)
    requires off < |buf| && P.Z != Zero(F)
    requires off + |WriteUnits(P.X.value, e, unitBytes)| <= |buf|
    requires WriteUnits(P.X.value, e, unitBytes)[0] < Pow2(5)
    ensures var r, ds := G1Image(buf, off, P, F, e, unitBytes), WriteUnits(P.X.value, e, unitBytes);
      && (forall k: nat :: k < 5 ==> (Bit(r[off], k) <==> Bit(ds[0], k)))
      && (forall k: nat :: 5 <= k ==> (Bit(r[off], k) <==> Bit(EvaluateMUnit(F, P, true), k)))
  {
    var ds := WriteUnits(P.X.value, e, unitBytes);
    var m := EvaluateMUnit(F, P, true);
    SpliceContents(buf, off, ds);
    assert G1Image(buf, off, P, F, e, unitBytes)[off] == Or(ds[0], m);
    MUnitFlags(F, P, true);
    OrSplitsAt5(ds[0], m);
  }

  /** OR-ing a value with no bit from 5 up into one with no bit below 5 keeps the low
      five bits of the first and the rest of the second. */
  lemma OrSplitsAt5(x: nat, m: nat)
    requires x < Pow2(5)
    requires forall k: nat :: Bit(m, k) ==> 5 <= k
    ensures forall k: nat :: k < 5 ==> (Bit(Or(x, m), k) <==> Bit(x, k))
    ensures forall k: nat :: 5 <= k ==> (Bit(Or(x, m), k) <==> Bit(m, k))
  {
    forall k: nat ensures Bit(Or(x, m), k) <==> Bit(x, k) || Bit(m, k) {
      OrBit(x, m, k);
    }
    forall k: nat | 5 <= k ensures !Bit(x, k) {
      NoBitAbove(x, 5, k);
    }
  }

  /** At infinity the G2 writer changes only the first unit, which keeps its bits and
      gains exactly C and I. */
  lemma G2AtInfinity(buf: seq<nat>, off: nat, P: Point, F: Field, skip: nat, e: Endian, unitBytes: UnitSize)
    requires ValidField(F) && IsG2Field(F) && PointOver(F, P)
    requires off < |buf| && P.Z == Zero(F)
    ensures var r := G2Image(buf, off, P, F, skip, e, unitBytes);
      && (forall i :: 0 <= i < |buf| && i != off ==> r[i] == buf[i])
      && (forall k: nat :: Bit(r[off], k) <==> Bit(buf[off], k) || k == 7 || k == 6)
  {
    MUnitFlags(F, P, true);
    var m := EvaluateMUnit(F, P, true);
    forall k: nat ensures Bit(Or(buf[off], m), k) <==> Bit(buf[off], k) || Bit(m, k) {
      OrBit(buf[off], m, k);
    }
  }

  /** Away from infinity, when component 0 fits in `skip` units, the G2 writer leaves
      component 0's units after the first at `off`, component 1's units at `off + skip`,
      and every other unit untouched. */
  lemma G2Written(buf: seq<nat>, off: nat, P: Point, F: Field, skip: nat, e: Endian, unitBytes: UnitSize)
    requires ValidField(F) && IsG2Field(F) && PointOver(F, P)
    requires off < |buf| && P.Z != Zero(F)
    requires |WriteUnits(ComponentValue(F, P.X, 0), e, unitBytes)| <= skip
    requires off + skip + |WriteUnits(ComponentValue(F, P.X, 1), e, unitBytes)| <= |buf|
    ensures var r := G2Image(buf, off, P, F, skip, e, unitBytes);
      var d0, d1 := WriteUnits(ComponentValue(F, P.X, 0), e, unitBytes), WriteUnits(ComponentValue(F, P.X, 1), e, unitBytes);
      && (forall i :: 0 < i < |d0| ==> r[off + i] == d0[i])
      && (forall i :: 0 <= i < |d1| ==> r[off + skip + i] == d1[i])
      && (forall i :: 0 <= i < |buf| && !(off <= i < off + |d0|) && !(off + skip <= i < off + skip + |d1|) ==> r[i] == buf[i])
  {
    var d0 := WriteUnits(ComponentValue(F, P.X, 0), e, unitBytes);
    var d1 := WriteUnits(ComponentValue(F, P.X, 1), e, unitBytes);
    G2ImageAwayFromInfinity(buf, off, P, F, skip, e, unitBytes);
    var w := Splice(Splice(buf, off, d0), off + skip, d1);
    SpliceTwiceThenSet(buf, off, d0, skip, d1, Or(w[off], EvaluateMUnit(F, P, true)));
  }

  /** Away from infinity the G2 image is the two component writes followed by the OR. */
  lemma G2ImageAwayFromInfinity(buf: seq<nat>, off: nat, P: Point, F: Field, skip: nat, e: Endian, unitBytes: UnitSize)
    requires ValidField(F) && IsG2Field(F) && PointOver(F, P)
    requires off < |buf| && P.Z != Zero(F)
    requires off + |WriteUnits(ComponentValue(F, P.X, 0), e, unitBytes)| <= |buf|
    requires off + skip + |WriteUnits(ComponentValue(F, P.X, 1), e, unitBytes)| <= |buf|
    ensures var d0, d1 := WriteUnits(ComponentValue(F, P.X, 0), e, unitBytes), WriteUnits(ComponentValue(F, P.X, 1), e, unitBytes);
      var w := Splice(Splice(buf, off, d0), off + skip, d1);
      G2Image(buf, off, P, F, skip, e, unitBytes) == w[off := Or(w[off], EvaluateMUnit(F, P, true))]
  {
  }

  /** At infinity the G2 image is the buffer with only the OR applied. */
  lemma G2ImageAtInfinity(buf: seq<nat>, off: nat, P: Point, F: Field, skip: nat, e: Endian, unitBytes: UnitSize)
    requires ValidField(F) && IsG2Field(F) && PointOver(F, P)
    requires off < |buf| && P.Z == Zero(F)
    ensures G2Image(buf, off, P, F, skip, e, unitBytes) == buf[off := Or(buf[off], EvaluateMUnit(F, P, true))]
  {
  }

  /** Away from infinity the first unit of the G2 encoding holds component 0's first
      unit with C set, S set exactly when Y has sign true, and no other bit added. */
  lemma G2FirstUnit(buf: seq<nat>, off: nat, P: Point, F: Field, skip: nat, e: Endian, unitBytes: UnitSize)
    requires ValidField(F) && IsG2Field(F) && PointOver(F, P)
    requires off < |buf| && P.Z != Zero(F)
    requires |WriteUnits(ComponentValue(F, P.X, 0), e, unitBytes)| <= skip
    requires off + skip + |WriteUnits(ComponentValue(F, P.X, 1), e, unitBytes)| <= |buf|
    ensures var r, d0 := G2Image(buf, off, P, F, skip, e, unitBytes), WriteUnits(ComponentValue(F, P.X, 0), e, unitBytes);
      forall b: nat :: Bit(r[off], b) <==> Bit(d0[0], b) || b == 7 || (b == 5 && SignGfp(F, P.Y))
  {
    MUnitFlags(F, P, true);
    var m := EvaluateMUnit(F, P, true);
    var d0 := WriteUnits(ComponentValue(F, P.X, 0), e, unitBytes);
    var d1 := WriteUnits(ComponentValue(F, P.X, 1), e, unitBytes);
    var w := Splice(Splice(buf, off, d0), off + skip, d1);
    SpliceTwice(buf, off, d0, skip, d1);
    assert w[off] == d0[0];
    assert G2Image(buf, off, P, F, skip, e, unitBytes)[off] == Or(d0[0], m);
    CompressedFirstUnit(F, P, d0[0]);
  }

  /** OR-ing the metadata of a compressed point that is not at infinity into a unit
      adds C, adds S exactly when Y has sign true, and adds nothing else. */
  lemma CompressedFirstUnit(F: Field, P: Point, x: nat)
    requires ValidField(F) && PointOver(F, P) && P.Z != Zero(F)
    ensures forall b: nat :: Bit(Or(x, EvaluateMUnit(F, P, true)), b) <==> Bit(x, b) || b == 7 || (b == 5 && SignGfp(F, P.Y))
  {
    MUnitFlags(F, P, true);
    var m := EvaluateMUnit(F, P, true);
    forall b: nat ensures Bit(Or(x, m), b) <==> Bit(x, b) || Bit(m, b) {
      OrBit(x, m, b);
    }
  }

  /** `s / cb` rounded up is the fewest multiples of cb that reach s. */
  lemma CeilingBounds(s: nat, cb: nat)
    requires cb >= 2
    ensures var k := s / cb + (if s % cb != 0 then 1 else 0);
      && k * cb >= s
      && (k > 0 ==> (k - 1) * cb < s)
  {
    var q, r := s / cb, s % cb;
    DivMod(s, cb);
    var k := q + (if r != 0 then 1 else 0);
    if r != 0 {
      assert k * cb == cb * q + cb;
      assert (k - 1) * cb == cb * q;
    } else {
      assert k * cb == cb * q;
      if k > 0 {
        assert (k - 1) * cb == cb * q - cb;
      }
    }
  }

  /** The component offset is the ceiling of the component's bit size over the unit's
      bit size: the fewest units that hold that many bits. */
  lemma ComponentUnitsIsCeiling(tsize: nat, arity: nat, unitBytes: UnitSize, j: nat)
    requires arity >= 1
    requires j * ChunkBits(unitBytes) >= tsize / arity
    ensures ComponentUnits(tsize, arity, unitBytes) <= j
  {
    var k := ComponentUnits(tsize, arity, unitBytes);
    if k > j {
      MulMonotone(ChunkBits(unitBytes), j, k - 1);
    }
  }
}
