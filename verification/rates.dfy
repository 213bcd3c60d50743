/**
 * Fee rates of the chainfee package: satoshis per 1000 virtual bytes and
 * satoshis per 1000 weight units, both int64 amounts. A virtual byte is
 * WitnessScaleFactor weight units; fees round down as BOLT #3 ("Fee
 * Calculation") asks, which for int64 in Go is division truncating toward
 * zero.
 */
module ChainFee {

  const MinInt64: int := -0x8000_0000_0000_0000
  const MaxInt64: int := 0x7fff_ffff_ffff_ffff

  /** Go's int64, the representation of an amount of satoshis and of both rate types. */
  type Int64 = x: int | MinInt64 <= x <= MaxInt64

  predicate FitsInt64(x: int)
  {
    MinInt64 <= x <= MaxInt64
  }

  /** Weight units per virtual byte. */
  const WitnessScaleFactor: int := 4

  /** Dafny's division by a positive divisor rounds down. */
  lemma FloorDiv(a: int, d: int)
    requires d > 0
    ensures d * (a / d) <= a < d * (a / d) + d
  {
  }

  /** Scaling a natural number by a positive factor does not shrink it. */
  lemma {:induction false} ScaledAtLeast(d: nat, q: nat)
    requires d >= 1
    ensures d * q >= q
    decreases d
  {
    if d > 1 {
      ScaledAtLeast(d - 1, q);
      assert d * q == (d - 1) * q + q;
    }
  }

  /** The floor quotient of a non-negative dividend lies between 0 and the dividend. */
  lemma FloorQuotientBound(a: int, d: int)
    requires d > 0 && a >= 0
    ensures 0 <= a / d <= a
  {
    FloorDiv(a, d);
    ScaledAtLeast(d, a / d);
  }

  /** A multiple of d below d is not positive. */
  lemma ScaledBelow(d: int, x: int)
    requires d > 0 && d * x < d
    ensures x <= 0
  {
  }

  /**
   * Go's integer division by a positive divisor: the quotient rounds toward
   * zero, so the remainder takes the sign of the dividend.
   */
  function TruncDiv(a: int, d: int): (q: int)
    requires d > 0
    ensures a >= 0 ==> 0 <= q <= a && d * q <= a < d * q + d
    ensures a < 0 ==> a <= q <= 0 && d * q - d < a <= d * q
  {
    if a >= 0 then
      FloorDiv(a, d);
      FloorQuotientBound(a, d);
      a / d
    else
      FloorDiv(-a, d);
      FloorQuotientBound(-a, d);
      var p := (-a) / d;
      assert d * -p == -(d * p);
      -p
  }

  /** Truncating division is monotone in the dividend. */
  lemma TruncDivMonotone(a: int, b: int, d: int)
    requires d > 0 && a <= b
    ensures TruncDiv(a, d) <= TruncDiv(b, d)
  {
    var qa, qb := TruncDiv(a, d), TruncDiv(b, d);
    if 0 <= a || b < 0 {
      assert d * (qa - qb) == d * qa - d * qb;
      ScaledBelow(d, qa - qb);
    }
  }

  /** A multiple of d divides exactly. */
  lemma TruncDivMultiple(k: int, d: int)
    requires d > 0
    ensures TruncDiv(k * d, d) == k
  {
    var q := TruncDiv(k * d, d);
    assert d * (q - k) == d * q - k * d;
    assert d * (k - q) == k * d - d * q;
    ScaledBelow(d, q - k);
    ScaledBelow(d, k - q);
  }

  /** FeePerKwFloor: the lowest rate, in sat/kw, used for transaction fees. */
  const FeePerKwFloor: SatPerKWeight := SatPerKWeight(253)

  /** SatPerKVByte: a fee rate in satoshis per 1000 virtual bytes. */
  datatype SatPerKVByte = SatPerKVByte(amount: Int64)
  {
    /** The fee for vbytes virtual bytes at this rate, rounded toward zero. */
    function FeeForVSize(vbytes: Int64): (fee: Int64)
      requires FitsInt64(amount * vbytes)
      ensures amount * vbytes >= 0 ==> 0 <= fee && fee * 1000 <= amount * vbytes < fee * 1000 + 1000
      ensures amount * vbytes < 0 ==> fee <= 0 && fee * 1000 - 1000 < amount * vbytes <= fee * 1000
    {
      TruncDiv(amount * vbytes, 1000)
    }

    /** The same rate per 1000 weight units: a quarter, rounded toward zero. */
    function FeePerKWeight(): (r: SatPerKWeight)
      ensures amount >= 0 ==> 0 <= r.amount && WitnessScaleFactor * r.amount <= amount < WitnessScaleFactor * r.amount + WitnessScaleFactor
      ensures amount < 0 ==> r.amount <= 0 && WitnessScaleFactor * r.amount - WitnessScaleFactor < amount <= WitnessScaleFactor * r.amount
    {
      SatPerKWeight(TruncDiv(amount, WitnessScaleFactor))
    }
  }

  /** SatPerKWeight: a fee rate in satoshis per 1000 weight units. */
  datatype SatPerKWeight = SatPerKWeight(amount: Int64)
  {
    /** The fee for wu weight units at this rate, rounded toward zero (down, for non-negative fees). */
    function FeeForWeight(wu: Int64): (fee: Int64)
      requires FitsInt64(amount * wu)
      ensures amount * wu >= 0 ==> 0 <= fee && fee * 1000 <= amount * wu < fee * 1000 + 1000
      ensures amount * wu < 0 ==> fee <= 0 && fee * 1000 - 1000 < amount * wu <= fee * 1000
    {
      TruncDiv(amount * wu, 1000)
    }

    /** The same rate per 1000 virtual bytes: four times as much. */
    function FeePerKVByte(): (r: SatPerKVByte)
      requires FitsInt64(amount * WitnessScaleFactor)
      ensures r.amount == WitnessScaleFactor * amount
    {
      SatPerKVByte(amount * WitnessScaleFactor)
    }
  }

  /** sat/kw to sat/kb and back is the identity. */
  lemma KWeightRoundTrip(r: SatPerKWeight)
    requires FitsInt64(r.amount * WitnessScaleFactor)
    ensures r.FeePerKVByte().FeePerKWeight() == r
  {
    TruncDivMultiple(r.amount, WitnessScaleFactor);
  }

  /**
   * sat/kb to sat/kw and back rounds toward zero to a multiple of 4: never
   * larger for a non-negative rate, and unchanged exactly when the rate is a
   * multiple of 4.
   */
  lemma KVByteRoundTrip(r: SatPerKVByte)
    ensures var back := r.FeePerKWeight().FeePerKVByte().amount;
            && (r.amount >= 0 ==> 0 <= back <= r.amount)
            && (r.amount < 0 ==> r.amount <= back <= 0)
            && (back == r.amount <==> r.amount % WitnessScaleFactor == 0)
  {
    if r.amount % WitnessScaleFactor == 0 {
      var k := r.amount / WitnessScaleFactor;
      assert r.amount == k * WitnessScaleFactor;
      TruncDivMultiple(k, WitnessScaleFactor);
    }
  }

  /** Pricing v virtual bytes at the sat/kb rate equals pricing 4v weight units at the sat/kw rate. */
  lemma FeeConsistent(r: SatPerKWeight, v: Int64)
    requires FitsInt64(r.amount * WitnessScaleFactor)
    requires FitsInt64(v * WitnessScaleFactor)
    requires FitsInt64(r.amount * WitnessScaleFactor * v)
    ensures r.FeePerKVByte().FeeForVSize(v) == r.FeeForWeight(WitnessScaleFactor * v)
  {
    assert (r.amount * WitnessScaleFactor) * v == r.amount * (WitnessScaleFactor * v);
  }

  /** At a non-negative rate a larger transaction never pays a smaller fee. */
  lemma FeeForVSizeMonotone(r: SatPerKVByte, v1: Int64, v2: Int64)
    requires 0 <= r.amount && v1 <= v2
    requires FitsInt64(r.amount * v1) && FitsInt64(r.amount * v2)
    ensures r.FeeForVSize(v1) <= r.FeeForVSize(v2)
  {
    assert r.amount * v2 - r.amount * v1 == r.amount * (v2 - v1);
    TruncDivMonotone(r.amount * v1, r.amount * v2, 1000);
  }

  /** At a non-negative rate a heavier transaction never pays a smaller fee. */
  lemma FeeForWeightMonotone(r: SatPerKWeight, wu1: Int64, wu2: Int64)
    requires 0 <= r.amount && wu1 <= wu2
    requires FitsInt64(r.amount * wu1) && FitsInt64(r.amount * wu2)
    ensures r.FeeForWeight(wu1) <= r.FeeForWeight(wu2)
  {
    assert r.amount * wu2 - r.amount * wu1 == r.amount * (wu2 - wu1);
    TruncDivMonotone(r.amount * wu1, r.amount * wu2, 1000);
  }

  /** The floor is 253 sat/kw, 1012 sat/kb, and pays 253 satoshis per 1000 weight units. */
  lemma FloorRate()
    ensures FeePerKwFloor.amount == 253
    ensures FeePerKwFloor.FeePerKVByte() == SatPerKVByte(1012)
    ensures FeePerKwFloor.FeeForWeight(1000) == 253
  {
  }
}
