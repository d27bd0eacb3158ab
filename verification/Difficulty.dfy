/** Compact difficulty encoding and retargeting (core/blockchain/difficulty.go).

    A target packs an 8-bit length and a 24-bit prefix; the difficulty it stands for is the
    prefix shifted left until it has that length. */
module Difficulty {
  import opened Records

  const PREFIX_BITS: nat := 24
  const PREFIX_SPAN: nat := 0x100_0000
  const MAX_BITS: nat := 255

  function Shl(n: nat, k: nat): nat
    decreases k
  {
    if k == 0 then n else 2 * Shl(n, k - 1)
  }

  function Shr(n: nat, k: nat): nat
    decreases k
  {
    if k == 0 then n else Shr(n / 2, k - 1)
  }

  /** Number of binary digits, 0 for 0. */
  function BitLen(n: nat): nat {
    if n == 0 then 0 else 1 + BitLen(n / 2)
  }

  /** How far a difficulty of this length is shifted to fit the prefix. */
  function Excess(length: nat): nat {
    if length > PREFIX_BITS then length - PREFIX_BITS else 0
  }

  function TargetToDiff(target: uint32): nat {
    Shl(target % PREFIX_SPAN, Excess(target / PREFIX_SPAN))
  }

  function Prefix(diff: nat): (r: nat)
    ensures r < PREFIX_SPAN
  {
    PrefixFits(diff);
    Shr(diff, Excess(BitLen(diff)))
  }

  /** The length is shifted as a 32-bit value, so only its low 8 bits survive. */
  function DiffToTarget(diff: nat): uint32 {
    (BitLen(diff) % 0x100) * PREFIX_SPAN + Prefix(diff)
  }

  /** The difficulty with all but its 24 most significant bits cleared. */
  function TopBits(diff: nat): nat {
    Shl(Prefix(diff), Excess(BitLen(diff)))
  }

  /** The scaled difficulty, but never less than half of the last one. */
  function Scaled(last: nat, scale: real): (r: int)
    ensures r >= last / 2
  {
    var lower := last as real * 0.5;
    var scaled := last as real * scale;
    assert (last / 2) as real <= lower;
    (if scaled < lower then lower else scaled).Floor
  }

  /** One retarget. The scale stands for the ratio of the measured to the expected interval. */
  function CalculateTarget(limit: uint32, lastTarget: uint32, scale: real): uint32 {
    var curr := Scaled(TargetToDiff(lastTarget), scale);
    if curr > TargetToDiff(limit) then limit else DiffToTarget(curr)
  }

  // ---- shifts and binary length ----

  /** Left and right shift form a Galois connection. */
  lemma {:induction false} ShiftGalois(q: nat, diff: nat, k: nat)
    ensures Shl(q, k) <= diff <==> q <= Shr(diff, k)
    decreases k
  {
    if k > 0 { ShiftGalois(q, diff / 2, k - 1); }
  }

  lemma {:induction false} ShlMonotone(a: nat, b: nat, k: nat)
    requires a <= b
    ensures Shl(a, k) <= Shl(b, k)
    decreases k
  {
    if k > 0 { ShlMonotone(a, b, k - 1); }
  }

  lemma {:induction false} ShlTwice(n: nat, j: nat, k: nat)
    ensures Shl(Shl(n, j), k) == Shl(n, j + k)
    decreases k
  {
    if k > 0 { ShlTwice(n, j, k - 1); }
  }

  lemma {:induction false} ShrMonotone(a: nat, b: nat, k: nat)
    requires a <= b
    ensures Shr(a, k) <= Shr(b, k)
    decreases k
  {
    if k > 0 { ShrMonotone(a / 2, b / 2, k - 1); }
  }

  lemma {:induction false} BitLenShl(n: nat, k: nat)
    ensures BitLen(Shl(n, k)) == if n == 0 then 0 else BitLen(n) + k
    decreases k
  {
    if k > 0 {
      BitLenShl(n, k - 1);
      assert Shl(n, k) / 2 == Shl(n, k - 1);
    }
  }

  lemma {:induction false} BitLenShr(n: nat, k: nat)
    ensures BitLen(Shr(n, k)) == if BitLen(n) <= k then 0 else BitLen(n) - k
    decreases k
  {
    if k > 0 { BitLenShr(n / 2, k - 1); }
  }

  lemma {:induction false} BitLenMonotone(a: nat, b: nat)
    requires a <= b
    ensures BitLen(a) <= BitLen(b)
  {
    if a > 0 { BitLenMonotone(a / 2, b / 2); }
  }

  /** At most k binary digits is the same as below 2^k. */
  lemma {:induction false} BitLenBelow(n: nat, k: nat)
    ensures BitLen(n) <= k <==> n < Shl(1, k)
    decreases k
  {
    if k > 0 { BitLenBelow(n / 2, k - 1); }
  }

  lemma {:induction false} PrefixSpan(n: nat)
    ensures BitLen(n) <= PREFIX_BITS <==> n < PREFIX_SPAN
  {
    BitLenBelow(n, PREFIX_BITS);
    assert Shl(1, 8) == 0x100;
    assert Shl(1, 16) == 0x1_0000;
    assert Shl(1, 24) == PREFIX_SPAN;
  }

  lemma {:induction false} PrefixFits(diff: nat)
    ensures Shr(diff, Excess(BitLen(diff))) < PREFIX_SPAN
  {
    BitLenShr(diff, Excess(BitLen(diff)));
    PrefixSpan(Shr(diff, Excess(BitLen(diff))));
  }

  // ---- the encoding rounds down to the nearest representable difficulty ----

  lemma {:induction false} TopBitsBounds(diff: nat)
    ensures BitLen(TopBits(diff)) == BitLen(diff) && TopBits(diff) <= diff
  {
    var k := Excess(BitLen(diff));
    BitLenShr(diff, k);
    BitLenShl(Prefix(diff), k);
    ShiftGalois(Prefix(diff), diff, k);
  }

  lemma {:induction false} DecodedLength(target: uint32)
    ensures BitLen(TargetToDiff(target)) <= MAX_BITS
  {
    PrefixSpan(target % PREFIX_SPAN);
    BitLenShl(target % PREFIX_SPAN, Excess(target / PREFIX_SPAN));
  }

  lemma {:induction false} DecodeFields(length: uint8, prefix: nat)
    requires prefix < PREFIX_SPAN
    ensures TargetToDiff(length * PREFIX_SPAN + prefix) == Shl(prefix, Excess(length))
  {
    var target: uint32 := length * PREFIX_SPAN + prefix;
    assert target / PREFIX_SPAN == length && target % PREFIX_SPAN == prefix;
  }

  /** Decoding an encoded difficulty clears all but its top 24 bits exactly when the
      difficulty has at most 255 bits; beyond that the 8-bit length field overflows. */
  lemma {:induction false} RoundTrip(diff: nat)
    ensures TargetToDiff(DiffToTarget(diff)) == TopBits(diff) <==> BitLen(diff) <= MAX_BITS
  {
    hide TargetToDiff, Prefix, BitLen, Shl;
    if BitLen(diff) <= MAX_BITS {
      DecodeFields(BitLen(diff), Prefix(diff));
    } else {
      DecodedLength(DiffToTarget(diff));
      TopBitsBounds(diff);
    }
  }

  /** No shifted 24-bit prefix lies between the top bits and the whole. */
  lemma {:induction false} TopBitsAreGreatest(diff: nat, prefix: nat, k: nat)
    requires prefix < PREFIX_SPAN && Shl(prefix, k) <= diff
    ensures Shl(prefix, k) <= TopBits(diff)
  {
    var m := Excess(BitLen(diff));
    if k >= m {
      var q := Shl(prefix, k - m);
      ShlTwice(prefix, k - m, m);
      ShiftGalois(q, diff, m);
      ShlMonotone(q, Prefix(diff), m);
    } else {
      PrefixSpan(prefix);
      BitLenShl(prefix, k);
      TopBitsBounds(diff);
      if Shl(prefix, k) > TopBits(diff) { BitLenMonotone(TopBits(diff), Shl(prefix, k)); }
    }
  }

  /** Encoding rounds down to the greatest difficulty any target can express. */
  lemma {:induction false} EncodingRoundsDown(diff: nat, target: uint32)
    requires BitLen(diff) <= MAX_BITS && TargetToDiff(target) <= diff
    ensures TargetToDiff(target) <= TargetToDiff(DiffToTarget(diff)) <= diff
  {
    RoundTrip(diff);
    TopBitsBounds(diff);
    TopBitsAreGreatest(diff, target % PREFIX_SPAN, Excess(target / PREFIX_SPAN));
  }

  /** Decode, encode, decode gives what the first decode gave, canonical target or not. */
  lemma {:induction false} DecodeEncodeDecode(target: uint32)
    ensures TargetToDiff(DiffToTarget(TargetToDiff(target))) == TargetToDiff(target)
  {
    DecodedLength(target);
    EncodingRoundsDown(TargetToDiff(target), target);
  }

  /** Larger difficulties have larger targets, as long as the length field suffices. */
  lemma {:induction false} EncodingMonotone(a: nat, b: nat)
    requires a <= b && BitLen(b) <= MAX_BITS
    ensures DiffToTarget(a) <= DiffToTarget(b)
  {
    BitLenMonotone(a, b);
    if BitLen(a) == BitLen(b) { ShrMonotone(a, b, Excess(BitLen(a))); }
  }

  // ---- retargeting ----

  /** Half of a representable difficulty is representable, so truncation loses nothing on it. */
  lemma {:induction false} HalfIsRepresentable(target: uint32) returns (half: uint32)
    ensures TargetToDiff(half) == TargetToDiff(target) / 2
  {
    var length, prefix := target / PREFIX_SPAN, target % PREFIX_SPAN;
    if length > PREFIX_BITS {
      half := (length - 1) * PREFIX_SPAN + prefix;
      DecodeFields(length - 1, prefix);
    } else {
      half := length * PREFIX_SPAN + prefix / 2;
      DecodeFields(length, prefix / 2);
    }
  }

  /** Whatever the scale, one retarget stays under the limit and loses at most half. */
  lemma {:induction false} RetargetBounds(limit: uint32, lastTarget: uint32, scale: real)
    requires TargetToDiff(lastTarget) <= TargetToDiff(limit)
    ensures TargetToDiff(lastTarget) / 2
         <= TargetToDiff(CalculateTarget(limit, lastTarget, scale))
         <= TargetToDiff(limit)
  {
    var curr := Scaled(TargetToDiff(lastTarget), scale);
    if curr <= TargetToDiff(limit) {
      DecodedLength(limit);
      BitLenMonotone(curr, TargetToDiff(limit));
      var half := HalfIsRepresentable(lastTarget);
      EncodingRoundsDown(curr, half);
    }
  }

  // ---- what a retarget computes ----

  function Power2(k: nat): (r: nat)
    ensures r > 0
  {
    if k == 0 then 1 else 2 * Power2(k - 1)
  }

  lemma {:induction false} ShlIsProduct(n: nat, k: nat)
    ensures Shl(n, k) == n * Power2(k)
    decreases k
  {
    if k > 0 { ShlIsProduct(n, k - 1); }
  }

  /** A target stands for its low 24 bits, doubled as often as its high 8 bits exceed 24. */
  lemma {:induction false} DecodedValue(target: uint32)
    ensures var length, prefix := target / 0x100_0000, target % 0x100_0000;
      TargetToDiff(target) == if length <= 24 then prefix else prefix * Power2(length - 24)
  {
    ShlIsProduct(target % PREFIX_SPAN, Excess(target / PREFIX_SPAN));
  }

  /** A target expresses the greatest difficulty not above x that any target can. */
  ghost predicate Expresses(target: uint32, x: int) {
    && TargetToDiff(target) <= x
    && (forall t: uint32 | TargetToDiff(t) <= x :: TargetToDiff(t) <= TargetToDiff(target))
  }

  function Max(a: real, b: real): real {
    if a < b then b else a
  }

  function Min(a: int, b: int): int {
    if a < b then a else b
  }

  /** The last difficulty times the scale, or times one half if that is more. */
  function Rescaled(last: nat, scale: real): int {
    (last as real * Max(scale, 0.5)).Floor
  }

  /** The new target expresses the last difficulty times the scale, or times one half if that is
      more, but not above the limit. */
  lemma {:induction false} RetargetExactly(limit: uint32, lastTarget: uint32, scale: real)
    ensures Expresses(CalculateTarget(limit, lastTarget, scale),
                      Min(Rescaled(TargetToDiff(lastTarget), scale), TargetToDiff(limit)))
  {
    hide TargetToDiff, DiffToTarget, Scaled, Expresses, Rescaled;
    var d := TargetToDiff(lastTarget);
    var x := Rescaled(d, scale);
    ScaledIs(d, scale);
    if x <= TargetToDiff(limit) {
      DecodedLength(limit);
      BitLenMonotone(x, TargetToDiff(limit));
      EncodingExpresses(x);
    } else {
      ExpressesItself(limit);
    }
  }

  lemma {:induction false} ExpressesItself(target: uint32)
    ensures Expresses(target, TargetToDiff(target))
  {
  }

  lemma {:induction false} EncodingExpresses(x: nat)
    requires BitLen(x) <= MAX_BITS
    ensures Expresses(DiffToTarget(x), x)
  {
    assert TargetToDiff(0) == 0;
    hide TargetToDiff, DiffToTarget, BitLen;
    EncodingRoundsDown(x, 0);
    forall t: uint32 | TargetToDiff(t) <= x ensures TargetToDiff(t) <= TargetToDiff(DiffToTarget(x)) {
      EncodingRoundsDown(x, t);
    }
  }

  lemma {:induction false} ScaledIs(last: nat, scale: real)
    ensures Scaled(last, scale) == Rescaled(last, scale) >= 0
  {
    var l := last as real;
    if scale < 0.5 {
      ScaleMonotone(l, scale, 0.5);
    } else {
      ScaleMonotone(l, 0.5, scale);
    }
  }

  lemma {:induction false} ScaleMonotone(l: real, a: real, b: real)
    requires l >= 0.0 && a <= b
    ensures l * a <= l * b
  {
    assert l * (b - a) >= 0.0;
  }

  /** With scale one the difficulty stays as it is. */
  lemma {:induction false} OnScheduleKeeps(limit: uint32, lastTarget: uint32)
    requires TargetToDiff(lastTarget) <= TargetToDiff(limit)
    ensures TargetToDiff(CalculateTarget(limit, lastTarget, 1.0)) == TargetToDiff(lastTarget)
  {
    RetargetExactly(limit, lastTarget, 1.0);
    assert TargetToDiff(lastTarget) as real * 1.0 == TargetToDiff(lastTarget) as real;
  }

  /** A larger scale never gives a smaller difficulty. */
  lemma {:induction false} RetargetMonotone(limit: uint32, lastTarget: uint32, a: real, b: real)
    requires a <= b
    ensures TargetToDiff(CalculateTarget(limit, lastTarget, a)) <= TargetToDiff(CalculateTarget(limit, lastTarget, b))
  {
    hide CalculateTarget, TargetToDiff, Rescaled, Expresses;
    var d := TargetToDiff(lastTarget);
    RetargetExactly(limit, lastTarget, a);
    RetargetExactly(limit, lastTarget, b);
    RescaledMonotone(d, a, b);
    ExpressesMore(CalculateTarget(limit, lastTarget, a), Min(Rescaled(d, a), TargetToDiff(limit)),
                  CalculateTarget(limit, lastTarget, b), Min(Rescaled(d, b), TargetToDiff(limit)));
  }

  lemma {:induction false} RescaledMonotone(last: nat, a: real, b: real)
    requires a <= b
    ensures Rescaled(last, a) <= Rescaled(last, b)
  {
    ScaleMonotone(last as real, Max(a, 0.5), Max(b, 0.5));
  }

  lemma {:induction false} ExpressesMore(s: uint32, x: int, t: uint32, y: int)
    requires Expresses(s, x) && Expresses(t, y) && x <= y
    ensures TargetToDiff(s) <= TargetToDiff(t)
  {
    hide TargetToDiff;
  }

  // ---- the scale ----

  const LAST_WEIGHT: real := 1.0 / 8.0

  /** The measured over the expected interval, in reals: the time since the last block, at least a
      second, weighs one eighth, the average of the twenty blocks before the rest. All in seconds. */
  function RetargetScale(interval: real, last: int, pre: int): real
    requires interval > 0.0
  {
    ((if last < 1 then 1 else last) as real * LAST_WEIGHT + pre as real / 20.0 * (1.0 - LAST_WEIGHT)) / interval
  }

  /** Blocks on schedule have scale one, and slower blocks never have a smaller one. */
  lemma {:induction false} ScaleMeasures(interval: real, last: int, pre: int, last': int, pre': int)
    requires interval > 0.0
    ensures last >= 1 && last as real == interval && pre as real == 20.0 * interval ==>
      RetargetScale(interval, last, pre) == 1.0
    ensures last <= last' && pre <= pre' ==> RetargetScale(interval, last, pre) <= RetargetScale(interval, last', pre')
  {
    if last <= last' && pre <= pre' {
      var a := (if last < 1 then 1 else last) as real * LAST_WEIGHT + pre as real / 20.0 * (1.0 - LAST_WEIGHT);
      var b := (if last' < 1 then 1 else last') as real * LAST_WEIGHT + pre' as real / 20.0 * (1.0 - LAST_WEIGHT);
      assert a <= b;
      Quotients(a, b, interval);
    }
    if last >= 1 && last as real == interval && pre as real == 20.0 * interval {
      assert pre as real / 20.0 == interval;
      assert interval * LAST_WEIGHT + interval * (1.0 - LAST_WEIGHT) == interval;
      Whole(interval);
    }
  }

  lemma {:induction false} Whole(c: real)
    requires c > 0.0
    ensures c / c == 1.0
  {
  }

  lemma {:induction false} Quotients(a: real, b: real, c: real)
    requires c > 0.0 && a <= b
    ensures a / c <= b / c
  {
    assert (b - a) / c >= 0.0;
  }
}
