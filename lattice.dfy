/**
 * The flat constant lattice of the SCCP pass: Top (nothing known yet),
 * Const(v) (always the 64-bit value v) and Bottom (not a constant).
 * The C++ class keeps two flags IsTop/IsBot and asserts that they are never
 * both set; as a datatype that state cannot be written at all.
 */
module Lattice {

  const MinInt64: int := -0x8000_0000_0000_0000
  const MaxInt64: int := 0x7fff_ffff_ffff_ffff

  /** A signed 64-bit integer (C++ int64_t). */
  type Int64 = x: int | -0x8000_0000_0000_0000 <= x <= 0x7fff_ffff_ffff_ffff

  datatype ConstantValue = Top | Const(value: Int64) | Bottom

  /** ConstantValue::operator==: compare the tags, and the integers only for constants. */
  function Equal(a: ConstantValue, b: ConstantValue): (r: bool)
    ensures r <==> a == b
  {
    var sameTag := a.Top? == b.Top? && a.Bottom? == b.Bottom?;
    if !sameTag then false
    else if a.Const? then a.value == b.value
    else true
  }

  /** ConstantValue::operator!=. */
  function NotEqual(a: ConstantValue, b: ConstantValue): (r: bool)
    ensures r <==> a != b
  {
    !Equal(a, b)
  }

  /** ConstantValue::meet, written with the same branches as the C++. */
  function Meet(a: ConstantValue, b: ConstantValue): ConstantValue
  {
    if a.Top? then b
    else if b.Top? || Equal(a, b) then a
    else Bottom
  }

  /**
   * The lattice order: a is at most b when a carries at least as much
   * "non-constness" as b, i.e. Bottom <= Const(v) <= Top.
   */
  predicate Below(a: ConstantValue, b: ConstantValue)
  {
    a == b || a.Bottom? || b.Top?
  }

  lemma BelowIsPartialOrder(a: ConstantValue, b: ConstantValue, c: ConstantValue)
    ensures Below(a, a)
    ensures Below(a, b) && Below(b, a) ==> a == b
    ensures Below(a, b) && Below(b, c) ==> Below(a, c)
  {
  }

  /** Top is the identity of meet on either side, and meet is idempotent. */
  lemma MeetIdentityAndIdempotence(a: ConstantValue)
    ensures Meet(Top, a) == a && Meet(a, Top) == a
    ensures Meet(a, a) == a
  {
  }

  /** Meet is commutative and associative, and Bottom absorbs. */
  lemma MeetAlgebra(a: ConstantValue, b: ConstantValue, c: ConstantValue)
    ensures Meet(a, b) == Meet(b, a)
    ensures Meet(Meet(a, b), c) == Meet(a, Meet(b, c))
    ensures Meet(Bottom, a) == Bottom && Meet(a, Bottom) == Bottom
  {
  }

  /** Two different constants meet to Bottom; equal constants meet to themselves. */
  lemma MeetOfConstants(x: Int64, y: Int64)
    ensures Meet(Const(x), Const(y)) == if x == y then Const(x) else Bottom
  {
  }

  /** Meet is the greatest lower bound for the order Below. */
  lemma MeetIsGreatestLowerBound(a: ConstantValue, b: ConstantValue, c: ConstantValue)
    ensures Below(Meet(a, b), a) && Below(Meet(a, b), b)
    ensures Below(c, a) && Below(c, b) ==> Below(c, Meet(a, b))
  {
  }

  /** Meet is monotone in both arguments. */
  lemma MeetMonotone(a: ConstantValue, a': ConstantValue, b: ConstantValue, b': ConstantValue)
    requires Below(a, a') && Below(b, b')
    ensures Below(Meet(a, b), Meet(a', b'))
  {
  }

  /** Distance to Bottom: 2 for Top, 1 for a constant, 0 for Bottom. */
  function Height(a: ConstantValue): nat
  {
    match a
    case Top => 2
    case Const(_) => 1
    case Bottom => 0
  }

  /**
   * The lattice has height two: every strict descent lowers Height, so a
   * stored fact can change at most twice (Top -> Const -> Bottom).
   */
  lemma StrictDescentLowersHeight(a: ConstantValue, b: ConstantValue)
    requires Below(b, a) && b != a
    ensures Height(b) < Height(a) <= 2
  {
  }
}
