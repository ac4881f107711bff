/** The endian codec: an unsigned integer to and from a run of buffer units.

    A unit holds `8 * unitBytes` bits (`chunk_size` in the source), so the run is a
    sequence of digits in radix 2^(8 * unitBytes). The conversion itself is the
    multiprecision library's `export_bits` / `import_bits`, whose last argument says
    whether the most significant digit comes first (`msvFirst`). The four helpers pass
    that flag as written in the source, which makes the `big_endian` helpers produce
    the least significant unit first and the `little_endian` ones the most significant
    unit first; `MsvFirst` states that mapping once. */
module Access {
  import opened Bits

  /** The endianness tags the codec dispatches on. */
  datatype Endian = BigEndian | LittleEndian

  /** `sizeof` of the buffer's unit type, in bytes. */
  type UnitSize = n: nat | n >= 1 witness 1

  /** A marshalled integral value: the number together with the endianness it is written with. */
  datatype Integral = Integral(endian: Endian, value: nat)

  /** Bits carried by one unit (`chunk_size`). */
  function ChunkBits(unitBytes: UnitSize): nat
  {
    8 * unitBytes
  }

  /** The radix of a unit run: one unit holds one digit below 2^chunk_size. */
  function Radix(unitBytes: UnitSize): (r: nat)
    ensures r >= 2
  {
    Pow2(ChunkBits(unitBytes))
  }

  /** The `msv_first` flag each tag's helpers hand to `export_bits` / `import_bits`. */
  function MsvFirst(e: Endian): bool
  {
    match e
    case BigEndian => false
    case LittleEndian => true
  }

  /** b^n; the radix is 2^chunk_bits, which is `Pow(2, ChunkBits(unitBytes))` (`Pow2IsPow`). */
  function Pow(b: nat, n: nat): nat
  {
    if n == 0 then 1 else b * Pow(b, n - 1)
  }

  /** The two powers agree: 2^k computed by `Pow2` is `Pow(2, k)`. */
  lemma {:induction false} Pow2IsPow(k: nat)
    ensures Pow2(k) == Pow(2, k)
  {
    if k > 0 {
      Pow2IsPow(k - 1);
    }
  }

  function Reverse<T>(s: seq<T>): (r: seq<T>)
    ensures |r| == |s|
  {
    if s == [] then [] else Reverse(s[1..]) + [s[0]]
  }

  /** The digits of v in radix b, least significant first: the shortest run that
      holds v, and a single zero digit for zero. */
  function LsvDigits(v: nat, b: nat): (ds: seq<nat>)
    requires b >= 2
    ensures |ds| >= 1
    ensures forall i :: 0 <= i < |ds| ==> ds[i] < b
    ensures v > 0 ==> ds[|ds| - 1] > 0
    decreases v
  {
    DivMod(v, b);
    if v < b then [v] else [v % b] + LsvDigits(v / b, b)
  }

  /** The number a run denotes when its first unit is the least significant; every
      unit contributes only its low chunk bits. */
  function LsvValue(ds: seq<nat>, b: nat): nat
    requires b >= 2
  {
    if ds == [] then 0 else ds[0] % b + b * LsvValue(ds[1..], b)
  }

  /** The number a run denotes when its first unit is the most significant (Horner's rule). */
  function MsvValue(ds: seq<nat>, b: nat): nat
    requires b >= 2
  {
    if ds == [] then 0 else MsvValue(ds[..|ds| - 1], b) * b + ds[|ds| - 1] % b
  }

  /** `export_bits(value, out, chunk, msv_first)`: the units it emits, at least one,
      each a digit below the radix, enough of them to hold v, and with a nonzero most
      significant unit (first when `msv_first`, last otherwise) unless v is zero. */
  function ExportBits(v: nat, b: nat, msvFirst: bool): (r: seq<nat>)
    requires b >= 2
    ensures |r| >= 1 && forall i :: 0 <= i < |r| ==> r[i] < b
    ensures v < Pow(b, |r|)
    ensures v > 0 ==> r[if msvFirst then 0 else |r| - 1] > 0
  {
    var ds := LsvDigits(v, b);
    LsvDigitsBelow(v, b);
    ReverseIndex(ds);
    if msvFirst then Reverse(ds) else ds
  }

  /** `import_bits(value, first, last, chunk, msv_first)`: the value of a unit range,
      below radix^n for n units in either order. */
  function ImportBits(ds: seq<nat>, b: nat, msvFirst: bool): (v: nat)
    requires b >= 2
    ensures v < Pow(b, |ds|)
  {
    if msvFirst then
      ReverseReverse(ds);
      MsvValueOfReverse(Reverse(ds), b);
      LsvValueBelow(Reverse(ds), b);
      MsvValue(ds, b)
    else
      LsvValueBelow(ds, b);
      LsvValue(ds, b)
  }

  /** The units `write_big_endian` emits: `read_big_endian` over them gives v back. */
  function BigEndianUnits(v: nat, unitBytes: UnitSize): (ds: seq<nat>)
    ensures ReadBigEndian(ds, 0, |ds|, unitBytes) == v
  {
    var ds := ExportBits(v, Radix(unitBytes), false);
    ExportImportRoundTrip(v, Radix(unitBytes), false);
    ReadWholeRun(ds, unitBytes);
    ds
  }

  /** The units `write_little_endian` emits: `read_little_endian` over them gives v back. */
  function LittleEndianUnits(v: nat, unitBytes: UnitSize): (ds: seq<nat>)
    ensures ReadLittleEndian(ds, 0, |ds|, unitBytes) == v
  {
    var ds := ExportBits(v, Radix(unitBytes), true);
    ExportImportRoundTrip(v, Radix(unitBytes), true);
    ReadWholeRun(ds, unitBytes);
    ds
  }

  /** The units `write_data` emits under tag e: the tag only selects the helper. */
  function WriteUnits(v: nat, e: Endian, unitBytes: UnitSize): (ds: seq<nat>)
    ensures e == BigEndian ==> ds == BigEndianUnits(v, unitBytes)
    ensures e == LittleEndian ==> ds == LittleEndianUnits(v, unitBytes)
    ensures ds == ExportBits(v, Radix(unitBytes), MsvFirst(e))
  {
    match e
    case BigEndian => BigEndianUnits(v, unitBytes)
    case LittleEndian => LittleEndianUnits(v, unitBytes)
  }

  /** `read_big_endian(iter, size)` over the units `buf[off..off + size]`: a value that
      fits in `size` units. */
  function ReadBigEndian(buf: seq<nat>, off: nat, size: nat, unitBytes: UnitSize): (v: nat)
    requires off + size <= |buf|
    ensures v < Pow(Radix(unitBytes), size)
  {
    ImportBits(buf[off..off + size], Radix(unitBytes), false)
  }

  /** `read_little_endian(iter, size)` over the units `buf[off..off + size]`: a value
      that fits in `size` units. */
  function ReadLittleEndian(buf: seq<nat>, off: nat, size: nat, unitBytes: UnitSize): (v: nat)
    requires off + size <= |buf|
    ensures v < Pow(Radix(unitBytes), size)
  {
    ImportBits(buf[off..off + size], Radix(unitBytes), true)
  }

  /** Reading a whole run from its start imports all of it. */
  lemma ReadWholeRun(ds: seq<nat>, unitBytes: UnitSize)
    ensures ReadBigEndian(ds, 0, |ds|, unitBytes) == ImportBits(ds, Radix(unitBytes), false)
    ensures ReadLittleEndian(ds, 0, |ds|, unitBytes) == ImportBits(ds, Radix(unitBytes), true)
  {
    assert ds[0..|ds|] == ds;
  }

  /** `read_data(iter, size, tag)`: the value is below radix^size and the tag only selects the helper. */
  function ReadData(buf: seq<nat>, off: nat, size: nat, e: Endian, unitBytes: UnitSize): (v: nat)
    requires off + size <= |buf|
    ensures e == BigEndian ==> v == ReadBigEndian(buf, off, size, unitBytes)
    ensures e == LittleEndian ==> v == ReadLittleEndian(buf, off, size, unitBytes)
    ensures v == ImportBits(buf[off..off + size], Radix(unitBytes), MsvFirst(e))
    ensures v < Pow(Radix(unitBytes), size)
  {
    match e
    case BigEndian => ReadBigEndian(buf, off, size, unitBytes)
    case LittleEndian => ReadLittleEndian(buf, off, size, unitBytes)
  }

  /** `buf` with the units `ds` written from position `off` on and everything else kept. */
  function Splice(buf: seq<nat>, off: nat, ds: seq<nat>): (r: seq<nat>)
    requires off + |ds| <= |buf|
    ensures |r| == |buf|
  {
    buf[..off] + ds + buf[off + |ds|..]
  }

  /** What a splice holds: `ds` from `off` on, and the old unit everywhere else. */
  lemma SpliceContents(buf: seq<nat>, off: nat, ds: seq<nat>)
    requires off + |ds| <= |buf|
    ensures forall i :: 0 <= i < |ds| ==> Splice(buf, off, ds)[off + i] == ds[i]
    ensures forall i :: 0 <= i < |buf| && !(off <= i < off + |ds|) ==> Splice(buf, off, ds)[i] == buf[i]
  {
  }

  /** A buffer that has `ds` at `off` and the old units everywhere else is the splice. */
  lemma SpliceUnique(buf: seq<nat>, off: nat, ds: seq<nat>, r: seq<nat>)
    requires off + |ds| <= |buf| && |r| == |buf|
    requires forall i :: 0 <= i < |ds| ==> r[off + i] == ds[i]
    requires forall i :: 0 <= i < |buf| && !(off <= i < off + |ds|) ==> r[i] == buf[i]
    ensures r == Splice(buf, off, ds)
  {
    var w := Splice(buf, off, ds);
    SpliceContents(buf, off, ds);
    forall i | 0 <= i < |r| ensures r[i] == w[i] {
      if off <= i < off + |ds| {
        assert r[off + (i - off)] == ds[i - off];
      }
    }
  }

  /** Two writes at `off` and `off + k`, the first no longer than k: each lands where
      it was written and everything else keeps its unit. */
  lemma SpliceTwice(buf: seq<nat>, off: nat, d0: seq<nat>, k: nat, d1: seq<nat>)
    requires |d0| <= k && off + k + |d1| <= |buf|
    ensures var w := Splice(Splice(buf, off, d0), off + k, d1);
      && |w| == |buf|
      && (forall i :: 0 <= i < |d0| ==> w[off + i] == d0[i])
      && (forall i :: 0 <= i < |d1| ==> w[off + k + i] == d1[i])
      && (forall i :: 0 <= i < |buf| && !(off <= i < off + |d0|) && !(off + k <= i < off + k + |d1|) ==> w[i] == buf[i])
  {
    var w0 := Splice(buf, off, d0);
    var w := Splice(w0, off + k, d1);
    SpliceContents(buf, off, d0);
    SpliceContents(w0, off + k, d1);
    forall i | 0 <= i < |d0| ensures w[off + i] == d0[i] {
      assert w[off + i] == w0[off + i];
    }
  }

  /** Two writes as in `SpliceTwice`, then the unit at `off` replaced: the first write
      survives after its first unit, the second survives whole, and everything else
      keeps its unit. */
  lemma SpliceTwiceThenSet(buf: seq<nat>, off: nat, d0: seq<nat>, k: nat, d1: seq<nat>, x: nat)
    requires 1 <= |d0| <= k && off + k + |d1| <= |buf|
    ensures var r := Splice(Splice(buf, off, d0), off + k, d1)[off := x];
      && (forall i :: 0 < i < |d0| ==> r[off + i] == d0[i])
      && (forall i :: 0 <= i < |d1| ==> r[off + k + i] == d1[i])
      && (forall i :: 0 <= i < |buf| && !(off <= i < off + |d0|) && !(off + k <= i < off + k + |d1|) ==> r[i] == buf[i])
  {
    SpliceTwice(buf, off, d0, k, d1);
  }

  /** `export_bits` writing through the caller's iterator: the units go to `a[off..]` one at a time. */
  method ExportBitsTo(a: array<nat>, off: nat, v: nat, b: nat, msvFirst: bool)
    requires b >= 2
    requires off + |ExportBits(v, b, msvFirst)| <= a.Length
    modifies a
    ensures a[..] == Splice(old(a[..]), off, ExportBits(v, b, msvFirst))
  {
    var ds := ExportBits(v, b, msvFirst);
    var i := 0;
    while i < |ds|
      invariant 0 <= i <= |ds|
      invariant forall j :: 0 <= j < i ==> a[off + j] == ds[j]
      invariant forall j :: 0 <= j < a.Length && !(off <= j < off + i) ==> a[j] == old(a[j])
    {
      a[off + i] := ds[i];
      i := i + 1;
    }
    SpliceUnique(old(a[..]), off, ds, a[..]);
  }

  /** `write_big_endian(value, iter)`. */
  method WriteBigEndian(a: array<nat>, off: nat, v: nat, unitBytes: UnitSize)
    requires off + |BigEndianUnits(v, unitBytes)| <= a.Length
    modifies a
    ensures a[..] == Splice(old(a[..]), off, BigEndianUnits(v, unitBytes))
  {
    ExportBitsTo(a, off, v, Radix(unitBytes), false);
  }

  /** `write_little_endian(value, iter)`. */
  method WriteLittleEndian(a: array<nat>, off: nat, v: nat, unitBytes: UnitSize)
    requires off + |LittleEndianUnits(v, unitBytes)| <= a.Length
    modifies a
    ensures a[..] == Splice(old(a[..]), off, LittleEndianUnits(v, unitBytes))
  {
    ExportBitsTo(a, off, v, Radix(unitBytes), true);
  }

  /** `write_data(value, iter, tag)`: writes the tag's units at `off`, nothing else. */
  method WriteData(a: array<nat>, off: nat, v: nat, e: Endian, unitBytes: UnitSize)
    requires off + |WriteUnits(v, e, unitBytes)| <= a.Length
    modifies a
    ensures a[..] == Splice(old(a[..]), off, WriteUnits(v, e, unitBytes))
  {
    match e
    case BigEndian => WriteBigEndian(a, off, v, unitBytes);
    case LittleEndian => WriteLittleEndian(a, off, v, unitBytes);
  }

  // ---------------------------------------------------------------------------
  // Properties of the codec

  lemma {:induction false} ReverseReverse<T>(s: seq<T>)
    ensures Reverse(Reverse(s)) == s
  {
    if s != [] {
      ReverseReverse(s[1..]);
      ReverseAppendOne(Reverse(s[1..]), s[0]);
    }
  }

  lemma ReverseAppendOne<T>(s: seq<T>, x: T)
    ensures Reverse(s + [x]) == [x] + Reverse(s)
  {
    if s != [] {
      assert (s + [x])[1..] == s[1..] + [x];
      ReverseAppendOne(s[1..], x);
    } else {
      assert s + [x] == [x];
    }
  }

  /** Each unit of the shortest run carries a full chunk of the value, and the
      least-significant-first value of the run is the number itself. */
  lemma {:induction false} LsvDigitsValue(v: nat, b: nat)
    requires b >= 2
    ensures LsvValue(LsvDigits(v, b), b) == v
    decreases v
  {
    if v >= b {
      var q, d := v / b, v % b;
      var ds := LsvDigits(v, b);
      assert ds == [d] + LsvDigits(q, b);
      assert ds[0] == d && ds[1..] == LsvDigits(q, b);
      DivMod(v, b);
      LsvDigitsValue(q, b);
      assert LsvValue(ds, b) == d % b + b * q;
    }
  }

  /** Reading a reversed run most-significant-first is reading the run least-significant-first. */
  lemma {:induction false} MsvValueOfReverse(ds: seq<nat>, b: nat)
    requires b >= 2
    ensures MsvValue(Reverse(ds), b) == LsvValue(ds, b)
  {
    if ds != [] {
      var r := Reverse(ds);
      assert r == Reverse(ds[1..]) + [ds[0]];
      assert r[..|r| - 1] == Reverse(ds[1..]);
      MsvValueOfReverse(ds[1..], b);
    }
  }

  /** A run of n units denotes a number below radix^n, whichever order is used. */
  lemma {:induction false} LsvValueBelow(ds: seq<nat>, b: nat)
    requires b >= 2
    ensures LsvValue(ds, b) < Pow(b, |ds|)
  {
    if ds != [] {
      LsvValueBelow(ds[1..], b);
      ShiftBelow(ds[0] % b, LsvValue(ds[1..], b), b, Pow(b, |ds| - 1));
    }
  }

  /** d + b * q stays below b * p when the digit d is below b and q below p. */
  lemma ShiftBelow(d: nat, q: nat, b: nat, p: nat)
    requires d < b && q < p
    ensures d + b * q < b * p
  {
    assert q + 1 <= p;
    MulMonotone(b, q + 1, p);
    assert b * (q + 1) == b * q + b;
  }

  /** Euclidean division by a radix: v splits into a digit and a smaller quotient. */
  lemma DivMod(v: nat, b: nat)
    requires b >= 2
    ensures v == v % b + b * (v / b) && 0 <= v % b < b && (v % b) % b == v % b
    ensures v > 0 ==> v / b < v
    ensures v >= b ==> v / b >= 1
  {
    var q, r := v / b, v % b;
    assert v == b * q + r && 0 <= r < b;
    ModSmall(r, b);
    MulMonotone(q, 2, b);
    if v >= b {
      assert q != 0;
    }
  }

  lemma ModSmall(r: nat, b: nat)
    requires r < b
    ensures r % b == r
  {
    var q, t := r / b, r % b;
    assert r == b * q + t && 0 <= t < b;
    if q >= 1 {
      MulMonotone(b, 1, q);
    }
  }

  lemma MulMonotone(b: nat, x: nat, y: nat)
    requires x <= y
    ensures b * x <= b * y
  {
  }

  /** Division is unique: a quotient and remainder below the divisor are `a / b` and `a % b`. */
  lemma UniqueDivision(a: nat, b: nat, q: nat, r: nat)
    requires b >= 1 && r < b && a == b * q + r
    ensures q == a / b && r == a % b
  {
    var q', r' := a / b, a % b;
    assert a == b * q' + r' && r' < b;
    if q' > q {
      MulMonotone(b, q + 1, q');
    } else if q' < q {
      MulMonotone(b, q' + 1, q);
    }
  }

  /** The shortest run is long enough: v is below radix^(number of units). */
  lemma {:induction false} LsvDigitsBelow(v: nat, b: nat)
    requires b >= 2
    ensures v < Pow(b, |LsvDigits(v, b)|)
    decreases v
  {
    if v >= b {
      DivMod(v, b);
      var n := |LsvDigits(v / b, b)|;
      LsvDigitsBelow(v / b, b);
      ShiftBelow(v % b, v / b, b, Pow(b, n));
      assert |LsvDigits(v, b)| == n + 1;
    }
  }

  /** `import_bits` undoes `export_bits` when both use the same `msv_first` flag. */
  lemma ExportImportRoundTrip(v: nat, b: nat, msvFirst: bool)
    requires b >= 2
    ensures ImportBits(ExportBits(v, b, msvFirst), b, msvFirst) == v
  {
    LsvDigitsValue(v, b);
    if msvFirst {
      MsvValueOfReverse(LsvDigits(v, b), b);
    }
  }

  /** Round trip per tag: reading back, with the same tag, the units written with tag e gives the value. */
  lemma TagRoundTrip(v: nat, e: Endian, unitBytes: UnitSize)
    ensures ReadData(WriteUnits(v, e, unitBytes), 0, |WriteUnits(v, e, unitBytes)|, e, unitBytes) == v
  {
    var ds := WriteUnits(v, e, unitBytes);
    assert ds[0..|ds|] == ds;
    ExportImportRoundTrip(v, Radix(unitBytes), MsvFirst(e));
  }

  /** The two tags pass opposite `msv_first` flags, so they emit the same units in reverse order. */
  lemma TagsAreReverses(v: nat, unitBytes: UnitSize)
    ensures WriteUnits(v, BigEndian, unitBytes) == Reverse(WriteUnits(v, LittleEndian, unitBytes))
    ensures MsvFirst(BigEndian) != MsvFirst(LittleEndian)
  {
    ReverseReverse(LsvDigits(v, Radix(unitBytes)));
  }

  /** Every emitted unit fits the unit's chunk width, and the run is the shortest one holding v. */
  lemma UnitsFitChunk(v: nat, e: Endian, unitBytes: UnitSize)
    ensures forall u :: u in WriteUnits(v, e, unitBytes) ==> u < Pow2(8 * unitBytes)
    ensures v < Pow(Radix(unitBytes), |WriteUnits(v, e, unitBytes)|)
    ensures v == 0 <==> WriteUnits(v, e, unitBytes) == [0]
  {
    var ds := WriteUnits(v, e, unitBytes);
    forall u | u in ds ensures u < Pow2(8 * unitBytes) {
      var i :| 0 <= i < |ds| && ds[i] == u;
    }
    if v == 0 {
      assert LsvDigits(0, Radix(unitBytes)) == [0];
      assert Reverse([0]) == [0];
    }
  }

  /** Unit i of a reversed run is unit `|s| - 1 - i` of the run. */
  lemma {:induction false} ReverseIndex<T>(s: seq<T>)
    ensures forall i :: 0 <= i < |s| ==> Reverse(s)[i] == s[|s| - 1 - i]
  {
    if s != [] {
      ReverseIndex(s[1..]);
    }
  }

  /** A read looks only at the `size` units from `off` on: two buffers that agree
      there read the same, wherever the range sits. */
  lemma ReadDataIsLocal(buf1: seq<nat>, off1: nat, buf2: seq<nat>, off2: nat, size: nat, e: Endian, unitBytes: UnitSize)
    requires off1 + size <= |buf1| && off2 + size <= |buf2|
    requires buf1[off1..off1 + size] == buf2[off2..off2 + size]
    ensures ReadData(buf1, off1, size, e, unitBytes) == ReadData(buf2, off2, size, e, unitBytes)
  {
  }

  /** Writing a run as long as the buffer from its start replaces the whole buffer. */
  lemma SpliceWhole(buf: seq<nat>, ds: seq<nat>)
    requires |ds| == |buf|
    ensures Splice(buf, 0, ds) == ds
  {
    assert buf[..0] == [] && buf[|ds|..] == [];
  }

  /** The round trip of test/integral.cpp: bytes made most-significant-first in 8-bit
      chunks read back through the little_endian tag as the value, and the value written
      back under that tag into a buffer of the same length gives the same bytes. */
  lemma IntegralTestRoundTrip(v: nat)
    ensures Radix(1) == 256
    ensures var cv := ExportBits(v, 256, true);
      ReadData(cv, 0, |cv|, LittleEndian, 1) == v && WriteUnits(v, LittleEndian, 1) == cv
  {
    assert Radix(1) == Pow2(8) == 256;
    var cv := ExportBits(v, 256, true);
    assert cv[0..|cv|] == cv;
    ExportImportRoundTrip(v, 256, true);
  }

  /** Writing that value into a buffer of the byte run's length leaves exactly the byte run. */
  method IntegralTestWriteBack(v: nat) returns (out: array<nat>)
    ensures out[..] == ExportBits(v, 256, true)
  {
    IntegralTestRoundTrip(v);
    var cv := ExportBits(v, 256, true);
    out := new nat[|cv|];
    ghost var before := out[..];
    WriteData(out, 0, v, LittleEndian, 1);
    SpliceWhole(before, cv);
  }
}
