/** Field elements and their marshalled form.

    A field is either a prime field or an extension (tower) field of some degree over
    an immediate underlying field; its arity is its dimension over the prime field.
    An element of a prime field is one integer below the modulus; an element of an
    extension field is `degree` elements of the underlying field. Marshalling flattens
    an element into `arity` integers (`obtain_field_data`) and wraps them as integral
    fields (`fill_field_element`). */
module FieldElement {
  import opened Access

  datatype Field = PrimeField(modulus: nat) | ExtensionField(degree: nat, underlying: Field)

  /** A field value: `Base` holds the residue of a prime-field element, `Ext` the
      components of an extension-field element (`data` in the source). */
  datatype Elem = Base(value: nat) | Ext(data: seq<Elem>)

  /** The field shapes the source works with: a modulus of at least 2, and every
      extension of degree at least 2. */
  predicate ValidField(F: Field)
  {
    match F
    case PrimeField(p) => p >= 2
    case ExtensionField(d, u) => d >= 2 && ValidField(u)
  }

  /** `algebra::is_extended_field`. */
  predicate IsExtended(F: Field)
  {
    F.ExtensionField?
  }

  /** `FieldType::arity`: the number of prime-field integers an element consists of. */
  function Arity(F: Field): (n: nat)
    ensures ValidField(F) ==> n >= 1
    ensures !IsExtended(F) ==> n == 1
  {
    match F
    case PrimeField(_) => 1
    case ExtensionField(d, u) => d * Arity(u)
  }

  /** x is a value of `F::value_type`. */
  predicate Member(F: Field, x: Elem)
  {
    match F
    case PrimeField(p) => x.Base? && x.value < p
    case ExtensionField(d, u) =>
      x.Ext? && |x.data| == d && forall i :: 0 <= i < d ==> Member(u, x.data[i])
  }

  /** The flattening of an element into prime-field integers: a prime-field element is
      its own residue, an extension element is the in-order concatenation of its
      components' flattenings. */
  function Flatten(F: Field, x: Elem): (r: seq<nat>)
    requires Member(F, x)
    ensures |r| == Arity(F)
    decreases F, 0, 0
  {
    match F
    case PrimeField(_) => [x.value]
    case ExtensionField(d, u) => FlattenAll(u, x.data)
  }

  function FlattenAll(U: Field, cs: seq<Elem>): (r: seq<nat>)
    requires forall i :: 0 <= i < |cs| ==> Member(U, cs[i])
    ensures |r| == |cs| * Arity(U)
    decreases U, 1, |cs|
  {
    if cs == [] then [] else Flatten(U, cs[0]) + FlattenAll(U, cs[1..])
  }

  /** The inverse of the flattening: cut the integers into `degree` blocks of the
      underlying arity and rebuild each component from its block. */
  function Unflatten(F: Field, xs: seq<nat>): Elem
    requires |xs| == Arity(F)
    decreases F, 0, 0
  {
    match F
    case PrimeField(_) => Base(xs[0])
    case ExtensionField(d, u) => Ext(UnflattenAll(u, xs, d))
  }

  function UnflattenAll(U: Field, xs: seq<nat>, k: nat): (cs: seq<Elem>)
    requires |xs| == k * Arity(U)
    ensures |cs| == k
    decreases U, 1, k
  {
    if k == 0 then []
    else
      var m := Arity(U);
      assert |xs| == m + (k - 1) * m;
      [Unflatten(U, xs[..m])] + UnflattenAll(U, xs[m..], k - 1)
  }

  // ---------------------------------------------------------------------------
  // obtain_field_data and fill_field_element

  /** `std::copy(src.begin(), src.end(), dst.begin() + off)`. */
  method CopyInto(src: array<nat>, dst: array<nat>, off: nat)
    requires src != dst
    requires off + src.Length <= dst.Length
    modifies dst
    ensures dst[..] == Splice(old(dst[..]), off, src[..])
  {
    var j := 0;
    while j < src.Length
      invariant 0 <= j <= src.Length
      invariant forall t :: 0 <= t < j ==> dst[off + t] == src[t]
      invariant forall t :: 0 <= t < dst.Length && !(off <= t < off + j) ==> dst[t] == old(dst[t])
    {
      dst[off + j] := src[j];
      j := j + 1;
    }
    SpliceUnique(old(dst[..]), off, src[..], dst[..]);
  }

  /** `detail::obtain_field_data`: a prime-field element's integer goes to index 0; an
      extension element's components are flattened in turn and component i is copied
      to offset `i * m`, where m is the arity of the underlying field. */
  method ObtainFieldData(F: Field, x: Elem) returns (result: array<nat>)
    requires ValidField(F) && Member(F, x)
    ensures fresh(result)
    ensures result[..] == Flatten(F, x)
    decreases F
  {
    match F
    case PrimeField(_) =>
      result := new nat[1];
      result[0] := x.value;
    case ExtensionField(d, u) =>
      var m := Arity(u);
      result := new nat[Arity(F)];
      assert Arity(F) / m == d by { UniqueDivision(d * m, m, d, 0); }
      var i := 0;
      while i < Arity(F) / m
        invariant 0 <= i <= d
        invariant fresh(result) && result.Length == d * m
        invariant i * m <= d * m
        invariant result[..i * m] == FlattenAll(u, x.data[..i])
      {
        var intermediate := ObtainFieldData(u, x.data[i]);
        MulStep(i, d, m);
        ghost var before := result[..];
        CopyInto(intermediate, result, i * m);
        SpliceExtendsPrefix(before, i * m, intermediate[..]);
        FlattenAllSnoc(u, x.data, i);
        i := i + 1;
      }
      assert x.data[..d] == x.data;
      assert result[..] == result[..d * m];
  }

  lemma MulStep(i: nat, d: nat, m: nat)
    requires i < d
    ensures (i + 1) * m <= d * m && (i + 1) * m == i * m + m
  {
    MulMonotone(m, i + 1, d);
  }

  /** Writing a block right after a prefix extends the prefix by that block. */
  lemma SpliceExtendsPrefix(buf: seq<nat>, lo: nat, blk: seq<nat>)
    requires lo + |blk| <= |buf|
    ensures Splice(buf, lo, blk)[..lo + |blk|] == buf[..lo] + blk
  {
  }

  /** Flattening one more component appends its flattening. */
  lemma FlattenAllSnoc(U: Field, cs: seq<Elem>, i: nat)
    requires forall j :: 0 <= j < |cs| ==> Member(U, cs[j])
    requires i < |cs|
    ensures FlattenAll(U, cs[..i + 1]) == FlattenAll(U, cs[..i]) + Flatten(U, cs[i])
  {
    assert cs[..i + 1] == cs[..i] + [cs[i]];
    FlattenAllAppend(U, cs[..i], [cs[i]]);
    assert FlattenAll(U, [cs[i]]) == Flatten(U, cs[i]) + FlattenAll(U, []);
  }

  /** The marshalled forms of `field_element<..., FieldType>`: a fixed-size list of
      integrals for an extension field, one integral for a prime field. */
  datatype FieldElementField = IntegralList(items: seq<Integral>) | SingleIntegral(item: Integral)

  /** The integers a marshalled field element holds, in order. */
  function EncodedValues(enc: FieldElementField): (r: seq<nat>)
    ensures enc.IntegralList? ==>
              |r| == |enc.items| && forall i :: 0 <= i < |r| ==> r[i] == enc.items[i].value
    ensures enc.SingleIntegral? ==> r == [enc.item.value]
  {
    match enc
    case IntegralList(items) => ValuesOf(items)
    case SingleIntegral(item) => [item.value]
  }

  /** The shape the `field_element` alias gives a field: `arity` integrals for an
      extended field, otherwise a single integral; either way the element's
      `arity` integers. */
  function HasFieldShape(F: Field, enc: FieldElementField): (b: bool)
    ensures b ==> |EncodedValues(enc)| == Arity(F)
  {
    if IsExtended(F) then enc.IntegralList? && |enc.items| == Arity(F) else enc.SingleIntegral?
  }

  function ValuesOf(items: seq<Integral>): (r: seq<nat>)
    ensures |r| == |items|
    ensures forall i :: 0 <= i < |r| ==> r[i] == items[i].value
  {
    if items == [] then [] else [items[0].value] + ValuesOf(items[1..])
  }

  /** `fill_field_element` for an extended field: integral i holds flattened position i. */
  method FillExtendedFieldElement(F: Field, x: Elem, endian: Endian) returns (enc: FieldElementField)
    requires ValidField(F) && IsExtended(F) && Member(F, x)
    ensures HasFieldShape(F, enc)
    ensures forall i :: 0 <= i < Arity(F) ==> enc.items[i] == Integral(endian, Flatten(F, x)[i])
  {
    var containerData: seq<Integral> := [];
    var valContainer := ObtainFieldData(F, x);
    var i := 0;
    while i < Arity(F)
      invariant 0 <= i <= Arity(F)
      invariant |containerData| == i
      invariant forall j :: 0 <= j < i ==> containerData[j] == Integral(endian, Flatten(F, x)[j])
    {
      containerData := containerData + [Integral(endian, valContainer[i])];
      i := i + 1;
    }
    enc := IntegralList(containerData);
  }

  /** `fill_field_element` for a prime field: the element's integer as one integral. */
  function FillBaseFieldElement(F: Field, x: Elem, endian: Endian): (enc: FieldElementField)
    requires !IsExtended(F) && Member(F, x)
    ensures HasFieldShape(F, enc)
    ensures EncodedValues(enc) == Flatten(F, x) && enc.item.endian == endian
  {
    SingleIntegral(Integral(endian, x.value))
  }

  /** `fill_field_element`, with the overload chosen by the field's shape: the result
      has the shape of `field_element`, holds the flattening in order, and decodes
      back to the element. */
  method FillFieldElement(F: Field, x: Elem, endian: Endian) returns (enc: FieldElementField)
    requires ValidField(F) && Member(F, x)
    ensures HasFieldShape(F, enc)
    ensures EncodedValues(enc) == Flatten(F, x)
    ensures Unflatten(F, EncodedValues(enc)) == x
  {
    if IsExtended(F) {
      enc := FillExtendedFieldElement(F, x, endian);
    } else {
      enc := FillBaseFieldElement(F, x, endian);
    }
    UnflattenFlatten(F, x);
  }

  // ---------------------------------------------------------------------------
  // Properties of the flattening

  /** A prime-field element flattens to its own integer, at index 0 of a one-integer result. */
  lemma FlattenBase(F: Field, x: Elem)
    requires !IsExtended(F) && Member(F, x)
    ensures Arity(F) == 1 && Flatten(F, x) == [x.value]
  {
  }

  /** Component i of an extension element occupies positions `i*m .. i*m+m-1` of the
      flattening, m being the underlying field's arity. */
  lemma FlattenBlock(F: Field, x: Elem, i: nat)
    requires IsExtended(F) && Member(F, x) && i < F.degree
    ensures (i + 1) * Arity(F.underlying) <= Arity(F)
    ensures Flatten(F, x)[i * Arity(F.underlying)..(i + 1) * Arity(F.underlying)]
         == Flatten(F.underlying, x.data[i])
  {
    MulStep(i, F.degree, Arity(F.underlying));
    FlattenAllBlock(F.underlying, x.data, i);
  }

  lemma FlattenAllBlock(U: Field, cs: seq<Elem>, i: nat)
    requires forall j :: 0 <= j < |cs| ==> Member(U, cs[j])
    requires i < |cs|
    ensures (i + 1) * Arity(U) <= |cs| * Arity(U)
    ensures FlattenAll(U, cs)[i * Arity(U)..(i + 1) * Arity(U)] == Flatten(U, cs[i])
  {
    MulStep(i, |cs|, Arity(U));
    assert |cs[..i]| == i;
    FlattenAllAround(U, cs, i);
    BlockSlice(FlattenAll(U, cs), FlattenAll(U, cs[..i]), Flatten(U, cs[i]), FlattenAll(U, cs[i + 1..]), i, Arity(U));
  }

  /** The flattening of a component list is that of the components before i, then
      component i, then the components after it. */
  lemma FlattenAllAround(U: Field, cs: seq<Elem>, i: nat)
    requires forall j :: 0 <= j < |cs| ==> Member(U, cs[j])
    requires i < |cs|
    ensures FlattenAll(U, cs) == FlattenAll(U, cs[..i]) + (Flatten(U, cs[i]) + FlattenAll(U, cs[i + 1..]))
  {
    var before, after := cs[..i], cs[i + 1..];
    assert cs == before + ([cs[i]] + after);
    FlattenAllAppend(U, before, [cs[i]] + after);
    FlattenAllAppend(U, [cs[i]], after);
    assert FlattenAll(U, [cs[i]]) == Flatten(U, cs[i]) + FlattenAll(U, []);
  }

  /** Flattening distributes over concatenation of component lists. */
  lemma {:induction false} FlattenAllAppend(U: Field, a: seq<Elem>, b: seq<Elem>)
    requires forall j :: 0 <= j < |a| ==> Member(U, a[j])
    requires forall j :: 0 <= j < |b| ==> Member(U, b[j])
    ensures FlattenAll(U, a + b) == FlattenAll(U, a) + FlattenAll(U, b)
  {
    if a != [] {
      assert (a + b)[0] == a[0] && (a + b)[1..] == a[1..] + b;
      FlattenAllAppend(U, a[1..], b);
    } else {
      assert a + b == b;
    }
  }

  /** The two halves of an appended sequence. */
  lemma SliceOfAppend(h: seq<nat>, t: seq<nat>)
    ensures (h + t)[..|h|] == h && (h + t)[|h|..] == t
  {
  }

  /** Block i of size m, preceded by i blocks of that size, is the slice `i*m .. (i+1)*m`. */
  lemma BlockSlice(whole: seq<nat>, before: seq<nat>, blk: seq<nat>, after: seq<nat>, i: nat, m: nat)
    requires whole == before + (blk + after) && |before| == i * m && |blk| == m
    ensures (i + 1) * m <= |whole|
    ensures whole[i * m..(i + 1) * m] == blk
  {
    assert (i + 1) * m == i * m + m;
    assert whole[|before|..|before| + |blk|] == blk;
  }

  /** Unflattening a flattening gives the element back. */
  lemma {:induction false} UnflattenFlatten(F: Field, x: Elem)
    requires Member(F, x)
    ensures Unflatten(F, Flatten(F, x)) == x
    decreases F, 0
  {
    match F
    case PrimeField(_) =>
    case ExtensionField(d, u) =>
      UnflattenFlattenAll(u, x.data);
  }

  lemma {:induction false} UnflattenFlattenAll(U: Field, cs: seq<Elem>)
    requires forall i :: 0 <= i < |cs| ==> Member(U, cs[i])
    ensures UnflattenAll(U, FlattenAll(U, cs), |cs|) == cs
    decreases U, 1, |cs|
  {
    if cs != [] {
      var head, tail := Flatten(U, cs[0]), FlattenAll(U, cs[1..]);
      assert FlattenAll(U, cs) == head + tail;
      UnflattenAllStep(U, head, tail, |cs|);
      UnflattenFlatten(U, cs[0]);
      UnflattenFlattenAll(U, cs[1..]);
      assert cs == [cs[0]] + cs[1..];
    }
  }

  /** Unflattening one block followed by k - 1 more rebuilds the first component from
      the block and the rest from what follows. */
  lemma UnflattenAllStep(U: Field, head: seq<nat>, tail: seq<nat>, k: nat)
    requires k >= 1 && |head| == Arity(U) && |tail| == (k - 1) * Arity(U)
    ensures |head + tail| == k * Arity(U)
    ensures UnflattenAll(U, head + tail, k) == [Unflatten(U, head)] + UnflattenAll(U, tail, k - 1)
  {
    MulStep(k - 1, k, Arity(U));
    SliceOfAppend(head, tail);
  }

  /** Flattening is injective: distinct elements of a field give distinct integer sequences. */
  lemma FlattenInjective(F: Field, x: Elem, y: Elem)
    requires Member(F, x) && Member(F, y)
    ensures Flatten(F, x) == Flatten(F, y) <==> x == y
  {
    if Flatten(F, x) == Flatten(F, y) {
      UnflattenFlatten(F, x);
      UnflattenFlatten(F, y);
    }
  }
}
