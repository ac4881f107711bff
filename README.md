# crypto3-marshalling compression codec, modelled in Dafny

This project models the compression-side codec of crypto3-marshalling. The codec turns
algebraic values into runs of buffer units:

- **Endian codec** (`Access`, `access.dfy`). An unsigned integer becomes a run of units
  of `8 * sizeof(unit)` bits and is read back. The conversion is the multiprecision
  `export_bits`/`import_bits` pair, whose last argument is `msv_first`. `write_data`
  and `read_data` dispatch on an endianness tag.
- **Field-element flattening** (`FieldElement`, `field_element.dfy`).
  `obtain_field_data` flattens a tower-field element into `arity` prime-field integers.
  Component `i` goes to offset `i * m`. `fill_field_element` wraps the integers as
  integral fields: a fixed-size list for an extended field, a single integral for a
  prime field.
- **Metadata unit and sign** (`CurveElementDetail`, `curve_element_detail.dfy`).
  `evaluate_m_unit` ORs the flags C (0x80), I (0x40) and S (0x20). `sign_gf_p` is the
  upper-half rule over a prime field. Over an extension field it reads `data[1]`,
  falling back to `data[0]` when `data[1]` is zero.
- **Point writers** (`CurveElement`, `curve_element.dfy`). The G1 and G2 `write_data`
  overloads write the affine X into a buffer unless the point is at infinity, then OR
  the metadata unit into the first unit. G2 writes its second component
  `ceil((TSize / arity) / chunk_bits)` units after the first.
- **Sparse-vector bundle** (`SparseVector`, `sparse_vector.dfy`). The bundle holds, in
  order, the index list, the value list and the domain size. `fill_sparse_vector`
  fills it element by element and checks nothing.
- **Bit vocabulary** (`Bits`, `bits.dfy`). Units are naturals. The bitwise OR that
  `(*iter) |= m_unit` performs is a recursive `Or`, proved bit by bit (`OrBit`).

Each writer that works through an iterator is a method on an `array<nat>` with an
explicit offset. Its postcondition ties the new array contents to a function of the
old contents: `Splice`, `G1Image` or `G2Image` (the latter takes the offset of the second component, `skip`, as a parameter). The properties are proved about those
functions. The helpers take the iterator by reference but hand `export_bits` and
`import_bits` a copy, so it does not move. The point writers assume that the inner
`write_data` does not move it either (`curve_element.hpp:69`, `:75`, `:100`). The model
therefore passes a plain offset and returns nothing.

The model follows the code as written. In the first two points below the code departs
from its own doc-comments: the helpers' comments speak of big- and little-endian
notation, a fixed width (`@tparam TSize Number of bytes to write`, `access.hpp:44`) and
an advanced iterator. The last two points are facts about the code itself:

- **Tag order.** As written, the `big_endian` helpers pass `msv_first = false` and the
  `little_endian` helpers pass `true` (`access.hpp:56`, `:80`, `:99`, `:119`). The
  `big_endian` tag therefore emits the least significant unit first. `MsvFirst` states
  this mapping once.
- **Padding and overflow.** `export_bits` emits the shortest run that holds the value.
  It does not zero-pad to a fixed width, and it has no overflow error. The model emits
  the shortest run, with a single zero unit for zero.
- **Sign over extension fields.** `sign_gf_p` reads only `data[1]` and `data[0]`
  (`detail/curve_element.hpp:88-91`). In a cubic extension it ignores `data[2]`.
- **Code that does not compile.** `processing/curve_element.hpp` and
  `types/zk/sparse_vector.hpp` do not compile as written. The G2 overload's
  `enable_if` names `G1GroupElement`. `TIter`, `Iter`, `modulus_type` and `I_bit` are
  undeclared. `fill_sparse_vector` returns `sparse_vector_type` and reads
  `indicies`. `evaluate_m_unit<ChunkType, GroupValueType>` is called without its
  `ChunkType` argument (`curve_element.hpp:63`, `:95`), which cannot be deduced. The
  model follows the evident intent: the declared `sparse_vector` alias, the vector's
  indices, the I flag 0x40, and a metadata unit that is a natural number.

## Model

| member | source | states |
|---|---|---|
| Access.LsvDigits | include/nil/crypto3/marshalling/processing/access.hpp:56 | the units `export_bits` produces are at least one, each below the radix 2^chunk_size, and the most significant one is nonzero for a nonzero value (shortest run) |
| Access.WriteUnits | include/nil/crypto3/marshalling/processing/access.hpp:126-140 | under `big_endian` the units are exactly those of `write_big_endian`, under `little_endian` those of `write_little_endian`; in both cases they are `export_bits` with the tag's `msv_first` flag |
| Access.ReadData | include/nil/crypto3/marshalling/processing/access.hpp:142-158 | the tag only selects the read helper; the value is `import_bits` of exactly the `size` units from the offset with the tag's flag, and it is below radix^size |
| Access.ExportBitsTo | include/nil/crypto3/marshalling/processing/access.hpp:56 | writing through the iterator puts the `export_bits` units at the offset and leaves every other unit unchanged |
| Access.WriteBigEndian | include/nil/crypto3/marshalling/processing/access.hpp:51-59 | the buffer afterwards is the old buffer with the `msv_first = false` units spliced in at the offset |
| Access.WriteLittleEndian | include/nil/crypto3/marshalling/processing/access.hpp:94-102 | the buffer afterwards is the old buffer with the `msv_first = true` units spliced in at the offset |
| Access.WriteData | include/nil/crypto3/marshalling/processing/access.hpp:126-140 | the buffer afterwards is the old buffer with the tag's units spliced in at the offset, nothing else changed |
| Access.LsvDigitsValue | include/nil/crypto3/marshalling/processing/access.hpp:53-56 | every unit carries one chunk of the value: the least-significant-first value of the emitted units is the original number |
| Access.MsvValueOfReverse | include/nil/crypto3/marshalling/processing/access.hpp:118-119 | reading a reversed run most-significant-first gives the same number as reading the run least-significant-first |
| Access.ExportBits | include/nil/crypto3/marshalling/processing/access.hpp:56 | `export_bits` emits at least one unit, each below the radix, enough of them to hold the value (value < radix^count), and a nonzero most significant unit (first when `msv_first`, last otherwise) unless the value is zero |
| Access.ImportBits | include/nil/crypto3/marshalling/processing/access.hpp:79-80 | `import_bits` of n units yields a number below radix^n, in either order |
| Access.BigEndianUnits | include/nil/crypto3/marshalling/processing/access.hpp:51-59 | the units `write_big_endian` emits read back through `read_big_endian` as the original value |
| Access.LittleEndianUnits | include/nil/crypto3/marshalling/processing/access.hpp:94-102 | the units `write_little_endian` emits read back through `read_little_endian` as the original value |
| Access.ReadBigEndian | include/nil/crypto3/marshalling/processing/access.hpp:71-85 | `read_big_endian` of `size` units yields a value below radix^size |
| Access.ReadLittleEndian | include/nil/crypto3/marshalling/processing/access.hpp:112-124 | `read_little_endian` of `size` units yields a value below radix^size |
| Access.LsvDigitsBelow | include/nil/crypto3/marshalling/processing/access.hpp:53-56 | the emitted run is long enough: the value is below radix^(number of units) |
| Access.ExportImportRoundTrip | include/nil/crypto3/marshalling/processing/access.hpp:51-85 | `import_bits` with a given `msv_first` flag undoes `export_bits` with the same flag, for every value |
| Access.TagRoundTrip | include/nil/crypto3/marshalling/processing/access.hpp:94-124 | for each tag, reading with that tag the units written with that tag returns the original value |
| Access.TagsAreReverses | include/nil/crypto3/marshalling/processing/access.hpp:56 | the two tags pass opposite `msv_first` flags, so the same value yields unit runs that are reverses of each other |
| Access.UnitsFitChunk | include/nil/crypto3/marshalling/processing/access.hpp:53-54 | every emitted unit is below 2^(8·sizeof(unit)), the run holds the whole value, and zero is exactly the single unit 0 |
| Access.ReadDataIsLocal | include/nil/crypto3/marshalling/processing/access.hpp:77-80 | a read depends only on the `size` units in `[off, off + size)`: two buffers that agree there read the same value |
| Access.IntegralTestRoundTrip | test/integral.cpp:100-109 | bytes exported most-significant-first in 8-bit chunks read back through the `little_endian` tag as the original value |
| Access.IntegralTestWriteBack | test/integral.cpp:111-119 | writing the value back under the `little_endian` tag into a buffer of the byte run's length reproduces the byte run exactly |
| FieldElement.Arity | include/nil/crypto3/marshalling/types/field_element.hpp:63-64 | the `arity` of a valid field is at least one, and exactly one for a prime field |
| FieldElement.HasFieldShape | include/nil/crypto3/marshalling/types/field_element.hpp:48-70 | a value of the `field_element` alias for a field (a fixed-size list of `arity` integrals, or one integral for a prime field) holds exactly `arity` integers |
| FieldElement.Flatten | include/nil/crypto3/marshalling/types/field_element.hpp:72-112 | the flattening of a field element has exactly `arity` integers |
| FieldElement.CopyInto | include/nil/crypto3/marshalling/types/field_element.hpp:105-108 | `std::copy` puts the source at the offset and leaves every other position of the destination unchanged |
| FieldElement.ObtainFieldData | include/nil/crypto3/marshalling/types/field_element.hpp:85-112 | the loop over `arity / underlying arity` components, each flattened recursively and copied to offset `i*m`, yields a fresh array equal to the element's flattening |
| FieldElement.FillExtendedFieldElement | include/nil/crypto3/marshalling/types/field_element.hpp:115-146 | the result is a list of exactly `arity` integrals, and integral i holds flattened position i with the given endianness |
| FieldElement.FillBaseFieldElement | include/nil/crypto3/marshalling/types/field_element.hpp:148-169 | the result is a single integral holding the element's integer with the given endianness |
| FieldElement.FillFieldElement | include/nil/crypto3/marshalling/types/field_element.hpp:54-70 | the result has the shape of the `field_element` alias for the field, holds the flattening in order, and decodes back to the element |
| FieldElement.FlattenBase | include/nil/crypto3/marshalling/types/field_element.hpp:72-83 | a prime-field element flattens to its own integer at index 0 of a one-integer result |
| FieldElement.FlattenBlock | include/nil/crypto3/marshalling/types/field_element.hpp:95-109 | component i of an extension element occupies exactly positions `[i*m, (i+1)*m)` of the flattening, m being the underlying arity |
| FieldElement.UnflattenFlatten | include/nil/crypto3/marshalling/types/field_element.hpp:85-112 | cutting the flattening into blocks of the underlying arity and rebuilding gives the element back |
| FieldElement.FlattenInjective | include/nil/crypto3/marshalling/types/field_element.hpp:85-112 | two elements of a field have the same flattening if and only if they are equal |
| CurveElementDetail.FlagBits | include/nil/crypto3/marshalling/processing/detail/curve_element.hpp:52-54 | C is exactly bit 7, I exactly bit 6 and S exactly bit 5, and each fits in a byte |
| CurveElementDetail.EvaluateMUnit | include/nil/crypto3/marshalling/processing/detail/curve_element.hpp:47-67 | C is set iff compressing; I iff Z is zero; S iff compressing, not at infinity and the sign of Y is true (so I and S are never both set); the unit is below 0x100 |
| CurveElementDetail.MUnitFlags | include/nil/crypto3/marshalling/processing/detail/curve_element.hpp:47-67 | the metadata unit sets no bit outside 0xE0 |
| CurveElementDetail.SignGfp | include/nil/crypto3/marshalling/processing/detail/curve_element.hpp:69-92 | the zero element has sign false in every field, through every level of the tower |
| CurveElementDetail.SignOfOpposites | include/nil/crypto3/marshalling/processing/detail/curve_element.hpp:73-82 | for an odd modulus p and 0 < v < p, exactly one of v and p - v is above `(p - 1) / 2` |
| CurveElementDetail.SignOfNegation | include/nil/crypto3/marshalling/processing/detail/curve_element.hpp:84-92 | in a field built from an odd prime by quadratic extensions, a nonzero element and its negation have opposite signs, so the S flag tells Y from -Y |
| CurveElement.ComponentUnits | include/nil/crypto3/marshalling/processing/curve_element.hpp:54-60 | the chunk count of `(TSize / arity) / chunk_bits` plus one for a remainder covers one component's bits, and one chunk fewer would not |
| CurveElement.G2FieldArity | include/nil/crypto3/marshalling/processing/curve_element.hpp:54-55 | the divisor `underlying_field_type::arity` is 2 for the quadratic-over-prime fields the model admits as G2 coordinate fields |
| CurveElement.ComponentUnitsIsCeiling | include/nil/crypto3/marshalling/processing/curve_element.hpp:58-60 | the chunk count is the least number of chunks whose bits cover one component |
| CurveElement.G1Image | include/nil/crypto3/marshalling/processing/curve_element.hpp:94-105 | the G1 writer keeps the buffer's length; what it writes is stated by `G1AtInfinity`, `G1Written` and `G1FlagsReadable` |
| CurveElement.G2Image | include/nil/crypto3/marshalling/processing/curve_element.hpp:62-81 | the G2 writer keeps the buffer's length; what it writes is stated by `G2AtInfinity`, `G2Written` and `G2FirstUnit` |
| CurveElement.WriteG1 | include/nil/crypto3/marshalling/processing/curve_element.hpp:84-106 | the buffer afterwards is the G1 image of the old buffer under the affine point: X written at the offset unless the I bit is set, then the metadata OR-ed into the first unit |
| CurveElement.WriteG2 | include/nil/crypto3/marshalling/processing/curve_element.hpp:44-82 | the buffer afterwards is the G2 image with the component offset set to the chunk count: both X components written (the second one chunk count further on, through a local iterator) unless the I bit is set, then the metadata OR-ed into the first unit |
| CurveElement.G1AtInfinity | include/nil/crypto3/marshalling/processing/curve_element.hpp:94-105 | at infinity no unit but the first changes, and the first keeps all its bits and gains exactly C and I |
| CurveElement.G1Written | include/nil/crypto3/marshalling/processing/curve_element.hpp:94-105 | away from infinity X's units follow the first unit unchanged, nothing outside X's run changes, and the first unit holds X's first unit plus C, plus S exactly when Y has sign true |
| CurveElement.G1FlagsReadable | include/nil/crypto3/marshalling/processing/curve_element.hpp:94-105 | for any unit width, when X's first unit (the unit at the offset) is below 2^5, so that every bit from 5 up is free, bits 0-4 of the first unit are X's and bits 5 and up are exactly the metadata unit's |
| CurveElement.G2AtInfinity | include/nil/crypto3/marshalling/processing/curve_element.hpp:62-81 | at infinity the G2 writer changes only the first unit, which keeps its bits and gains exactly C and I |
| CurveElement.G2Written | include/nil/crypto3/marshalling/processing/curve_element.hpp:62-81 | away from infinity, for a component offset no shorter than component 0's run, the final buffer keeps component 0's units after the first, component 1's units at the offset, and every other unit of the old buffer |
| CurveElement.G2FirstUnit | include/nil/crypto3/marshalling/processing/curve_element.hpp:62-81 | away from infinity the first unit holds component 0's first unit plus C, plus S exactly when Y has sign true, and nothing else |
| CurveElement.CompressedFirstUnit | include/nil/crypto3/marshalling/processing/curve_element.hpp:81 | OR-ing the metadata of a compressed finite point into a unit adds C, adds S exactly when Y has sign true, and sets no other bit |
| SparseVector.FillIntegralVector | include/nil/crypto3/marshalling/types/zk/sparse_vector.hpp:100 | the index list is encoded element-wise, in order: same length, integral i holds index i with the given endianness |
| SparseVector.FillCurveElementVector | include/nil/crypto3/marshalling/types/zk/sparse_vector.hpp:101-103 | the value list is encoded element-wise, in order, through the curve-element encoding |
| SparseVector.FillSparseVector | include/nil/crypto3/marshalling/types/zk/sparse_vector.hpp:87-106 | the bundle holds, in this order, the encoded indices, the encoded values and the domain size copied unchanged, with each list's length preserved |
| SparseVector.DecodeIndices | include/nil/crypto3/marshalling/types/zk/sparse_vector.hpp:66-72 | the model's own inverse of filling an index list, with a range test standing in for the declared `std::size_t` field type: it succeeds iff every integral fits a `std::size_t`, and then yields those values in order |
| SparseVector.DecodeSparseVector | include/nil/crypto3/marshalling/types/zk/sparse_vector.hpp:62-85 | the model's own inverse of the fill, with the same stand-in for the `std::size_t` fields: it succeeds iff every index and the domain size fit a `std::size_t`, and then yields the three fields in order |
| SparseVector.FillDecodeRoundTrip | include/nil/crypto3/marshalling/types/zk/sparse_vector.hpp:87-106 | with a curve-element decoder that undoes the encoding on the vector's own values, reading a filled bundle gives back the original sparse vector |
| SparseVector.SameBundleIff | include/nil/crypto3/marshalling/types/zk/sparse_vector.hpp:87-106 | two sparse vectors have the same bundle iff their indices and domain sizes are equal and their values have equal curve-element encodings position by position |
| SparseVector.FillIsUnchecked | include/nil/crypto3/marshalling/types/zk/sparse_vector.hpp:92-106 | filling rejects nothing: mismatched list lengths, out-of-domain indices and unsorted indices all carry over unchanged |

## Left out

- Point decompression is not part of this model. This covers square roots, the quadratic-residue check and the curve-membership check, none of which appear in the modelled code.
- The field and curve libraries are abstract. `to_affine` is a function parameter of the writers. `Z.is_zero()` and `== 0` compare against `Zero`, and `convert_to<modulus_type>` is the identity on the residue.
- Multiprecision internals are not modelled: limb layout, the checked/unchecked overflow machinery, and the value width `T`. Values are unbounded naturals.
- Access.LsvDigits: emits the shortest run, as `export_bits` does. It does not model a fixed `TSize` width, zero padding or an overflow error.
- Access.ReadData: models `import_bits` masking each unit to its chunk bits. It does not model truncation to the result type `T`.
- The "@post The iterator is advanced" doc-comments on the helpers are not modelled. The helpers take the iterator by reference but pass `export_bits`/`import_bits` a copy, and the point writers assume the inner `write_data` does not move it. The model therefore uses an explicit offset.
- The uncompressed path (`compression = false`) of `evaluate_m_unit` is covered by the contract of `EvaluateMUnit`. No writer uses it, so no writer is modelled for it.
- CurveElementDetail.SignOfNegation: proved only for fields built from an odd prime by quadratic extensions. In a cubic extension `sign_gf_p` ignores `data[2]`, so an element with only `data[2]` nonzero has the same sign as its negation.
- The `nil::marshalling` containers (`bundle`, `array_list`, `static_vector`, `integral`) and `status_type` are plain sequences and datatypes here. Serialising a bundle to bytes is not part of this model.
- CurveElement.WriteG1: the inner `write_data<TSize, Endianness>(value, iter)` is the fixed-width writer of `processing/integral.hpp`, and processing/integral.hpp is not part of this model. The model writes the shortest run of `Access.WriteData` with no `TSize` padding. So when X's first unit (the unit at the offset; under `big_endian` that is X's least significant unit, `access.hpp:56`) has bits in 5 to 7, the OR of the metadata merges the flags with them and they can no longer be told apart, and two points can encode the same way. An example: 8-bit units, `little_endian`, the prime field of 257, X = 0xFF, and Y = 1 or Y = 200 both give the single unit 0xFF.
- CurveElement.WriteG2: the same fixed-width writer is not modelled. A `TSize`-wide write would fill the gap between the end of component 0's shortest run and the component offset, and the model leaves that gap untouched.
- CurveElement.WriteG2: only quadratic extensions of a prime field are modelled as G2 coordinate fields. For a cubic coordinate field the divisor would be 3, and the code would still write only `data[0]` and `data[1]`, dropping `data[2]`.
- SparseVector.DecodeSparseVector: reading a bundle from bytes through `nil::marshalling` is not part of this model. The decoder is the model's own inverse of the fill, and its `std::size_t` range test stands in for the declared field type.
- SparseVector.FillCurveElementVector: the curve-element field type and its encoding are not part of this model. They are a parameter `fill`.
- The test harness of `test/integral.cpp` is not modelled beyond its one round trip. This covers random value generation, Boost.Test and printing.
