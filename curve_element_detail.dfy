/** The metadata unit of a compressed point and the sign convention behind its S flag.

    The metadata unit carries three flags: C (0x80, compression), I (0x40, the point
    is at infinity) and S (0x20, the sign of Y). The sign of a prime-field element is
    the upper-half rule `v > (p - 1) / 2`; in an extension field it is the sign of
    component 1 unless that component is zero, and then the sign of component 0. */
module CurveElementDetail {
  import opened Bits
  import opened FieldElement

  /** A group element in homogeneous coordinates; Z zero marks the point at infinity. */
  datatype Point = Point(X: Elem, Y: Elem, Z: Elem)

  predicate PointOver(F: Field, p: Point)
  {
    Member(F, p.X) && Member(F, p.Y) && Member(F, p.Z)
  }

  const C_BIT: nat := 0x80
  const I_BIT: nat := 0x40
  const S_BIT: nat := 0x20

  /** The zero element of a field (what `is_zero()` and `== 0` compare against). */
  function Zero(F: Field): (z: Elem)
    ensures ValidField(F) ==> Member(F, z)
  {
    match F
    case PrimeField(_) => Base(0)
    case ExtensionField(d, u) => Ext(seq(d, _ => Zero(u)))
  }

  /** `sign_gf_p`: the upper-half rule in a prime field; in an extension field the
      sign of `data[1]`, or of `data[0]` when `data[1]` is zero. Zero has sign false
      at every level of the tower. */
  function SignGfp(F: Field, v: Elem): (r: bool)
    requires ValidField(F) && Member(F, v)
    ensures v == Zero(F) ==> !r
  {
    match F
    case PrimeField(p) => v.value > (p - 1) / 2
    case ExtensionField(_, u) =>
      if v.data[1] == Zero(u) then SignGfp(u, v.data[0]) else SignGfp(u, v.data[1])
  }

  /** `evaluate_m_unit`: C when compressing; I when Z is zero, otherwise S when
      compressing and Y has sign true. The flags sit in bits 7, 6 and 5, and the
      unit fits in a byte. */
  function EvaluateMUnit(F: Field, point: Point, compression: bool): (m: nat)
    requires ValidField(F) && PointOver(F, point)
    ensures Bit(m, 7) <==> compression
    ensures Bit(m, 6) <==> point.Z == Zero(F)
    ensures Bit(m, 5) <==> compression && point.Z != Zero(F) && SignGfp(F, point.Y)
    ensures m < 0x100
  {
    FlagBits();
    var withC := if compression then Or(0, C_BIT) else 0;
    FlagsOf(withC, compression, point.Z == Zero(F), compression && point.Z != Zero(F) && SignGfp(F, point.Y));
    if point.Z == Zero(F) then Or(withC, I_BIT)
    else if compression && SignGfp(F, point.Y) then Or(withC, S_BIT)
    else withC
  }

  // ---------------------------------------------------------------------------
  // Properties of the metadata unit

  /** Each flag constant is a single bit: C is bit 7, I bit 6 and S bit 5. */
  lemma FlagBits()
    ensures forall k: nat :: Bit(C_BIT, k) <==> k == 7
    ensures forall k: nat :: Bit(I_BIT, k) <==> k == 6
    ensures forall k: nat :: Bit(S_BIT, k) <==> k == 5
    ensures C_BIT < Pow2(8) && I_BIT < Pow2(8) && S_BIT < Pow2(8)
  {
    assert Pow2(5) == S_BIT && Pow2(6) == I_BIT && Pow2(7) == C_BIT && Pow2(8) == 0x100;
    forall k: nat ensures Bit(C_BIT, k) <==> k == 7 { Pow2Bit(7, k); }
    forall k: nat ensures Bit(I_BIT, k) <==> k == 6 { Pow2Bit(6, k); }
    forall k: nat ensures Bit(S_BIT, k) <==> k == 5 { Pow2Bit(5, k); }
  }

  /** The C flag alone, then I or S (never both) OR-ed onto it: each flag lands in its
      own bit and the result fits in a byte. */
  lemma FlagsOf(withC: nat, c: bool, i: bool, s: bool)
    requires withC == if c then Or(0, C_BIT) else 0
    requires !(i && s)
    ensures var m := if i then Or(withC, I_BIT) else if s then Or(withC, S_BIT) else withC;
      && (Bit(m, 7) <==> c) && (Bit(m, 6) <==> i) && (Bit(m, 5) <==> s) && m < 0x100
  {
    FlagBits();
    assert Pow2(8) == 0x100;
    forall k: nat ensures Bit(withC, k) <==> c && k == 7 {
      ZeroHasNoBit(k);
      OrBit(0, C_BIT, k);
    }
    OrBelow(0, C_BIT, 8);
    if i {
      forall k: nat ensures Bit(Or(withC, I_BIT), k) <==> Bit(withC, k) || k == 6 { OrBit(withC, I_BIT, k); }
      OrBelow(withC, I_BIT, 8);
    } else if s {
      forall k: nat ensures Bit(Or(withC, S_BIT), k) <==> Bit(withC, k) || k == 5 { OrBit(withC, S_BIT, k); }
      OrBelow(withC, S_BIT, 8);
    }
  }

  /** The metadata unit sets no bit outside 0xE0: every set bit is one of the flags. */
  lemma MUnitFlags(F: Field, point: Point, compression: bool)
    requires ValidField(F) && PointOver(F, point)
    ensures forall k: nat :: Bit(EvaluateMUnit(F, point, compression), k) ==> 5 <= k <= 7
  {
    FlagBits();
    var withC := if compression then Or(0, C_BIT) else 0;
    forall k: nat ensures Bit(withC, k) <==> compression && k == 7 {
      ZeroHasNoBit(k);
      OrBit(0, C_BIT, k);
    }
    var m := EvaluateMUnit(F, point, compression);
    forall k: nat | Bit(m, k) ensures 5 <= k <= 7 {
      OrBit(withC, I_BIT, k);
      OrBit(withC, S_BIT, k);
    }
  }

  // ---------------------------------------------------------------------------
  // Properties of the sign

  /** With an odd modulus p and 0 < v < p, exactly one of v and p - v is in the upper half. */
  lemma SignOfOpposites(p: nat, v: nat)
    requires p >= 2 && p % 2 == 1 && 0 < v < p
    ensures SignGfp(PrimeField(p), Base(v)) != SignGfp(PrimeField(p), Base(p - v))
  {
  }

  /** Field negation, component by component. */
  function Neg(F: Field, x: Elem): (r: Elem)
    requires Member(F, x)
    ensures Member(F, r)
  {
    match F
    case PrimeField(p) => Base(if x.value == 0 then 0 else p - x.value)
    case ExtensionField(d, u) => Ext(seq(d, i requires 0 <= i < d => Neg(u, x.data[i])))
  }

  /** Fields built from an odd prime by quadratic extensions only (the G1 and G2 coordinate fields). */
  predicate OddQuadraticTower(F: Field)
  {
    match F
    case PrimeField(p) => p % 2 == 1
    case ExtensionField(d, u) => d == 2 && OddQuadraticTower(u)
  }

  /** Negation fixes zero and only zero. */
  lemma {:induction false} NegIsZero(F: Field, x: Elem)
    requires ValidField(F) && Member(F, x)
    ensures Neg(F, x) == Zero(F) <==> x == Zero(F)
  {
    match F
    case PrimeField(_) =>
    case ExtensionField(d, u) =>
      forall i | 0 <= i < d ensures Neg(u, x.data[i]) == Zero(u) <==> x.data[i] == Zero(u) {
        NegIsZero(u, x.data[i]);
      }
      if Neg(F, x) == Zero(F) {
        assert forall i | 0 <= i < d :: Neg(F, x).data[i] == Zero(u);
        assert x.data == Zero(F).data;
      }
      if x == Zero(F) {
        assert Neg(F, x).data == Zero(F).data;
      }
  }

  /** In an odd quadratic tower a nonzero element and its negation have opposite signs:
      the S flag tells Y from -Y. */
  lemma {:induction false} SignOfNegation(F: Field, x: Elem)
    requires ValidField(F) && OddQuadraticTower(F) && Member(F, x) && x != Zero(F)
    ensures SignGfp(F, Neg(F, x)) != SignGfp(F, x)
  {
    match F
    case PrimeField(p) =>
      SignOfOpposites(p, x.value);
    case ExtensionField(_, u) =>
      NegIsZero(u, x.data[1]);
      if x.data[1] != Zero(u) {
        SignOfNegation(u, x.data[1]);
      } else {
        SignOfNegation(u, x.data[0]);
      }
  }
}
