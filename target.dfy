/** The compact "bits" form of a proof-of-work target and the two-week
    retarget (ecc/helper.go). */
module Target {
  import opened Common
  import opened Codec

  /** Seconds in the two-week retarget period. */
  const TWO_WEEKS: nat := 60 * 60 * 24 * 14

  /** 2^256: every target is below it, since a hash has 32 bytes. */
  const TARGET_LIMIT: nat := 0x1_0000_0000_0000_0000_0000_0000_0000_0000_0000_0000_0000_0000_0000_0000_0000_0000

  lemma TargetLimitIsPow()
    ensures Pow256(32) == TARGET_LIMIT
  {
    PowValues();
    assert Pow256(12) == 0x1_0000_0000_0000_0000_0000_0000;
    assert Pow256(16) == 0x1_0000_0000_0000_0000_0000_0000_0000_0000;
    assert Pow256(20) == 0x1_0000_0000_0000_0000_0000_0000_0000_0000_0000_0000;
    assert Pow256(24) == 0x1_0000_0000_0000_0000_0000_0000_0000_0000_0000_0000_0000_0000;
    assert Pow256(28) == 0x1_0000_0000_0000_0000_0000_0000_0000_0000_0000_0000_0000_0000_0000_0000;
  }

  /** A target below 2^256 has at most 32 significant bytes. */
  lemma ByteLengthBelowLimit(t: nat)
    requires 0 < t < TARGET_LIMIT
    ensures ByteLength(t) <= 32
  {
    TargetLimitIsPow();
    ByteLengthAtMost(t, 32);
  }

  /** A compact target: three little-endian coefficient bytes and an exponent. */
  type Bits = s: seq<uint8> | |s| == 4 witness [0, 0, 0, 0]

  /** `a` moved up by `k` bytes: a · 256^k. */
  function Shl(a: nat, k: nat): (r: nat)
    ensures r >= a
  {
    if k == 0 then a else Shl(a, k - 1) * 256
  }

  /** `a` moved down by `k` bytes, the low bytes dropped: a / 256^k. */
  function Shr(a: nat, k: nat): (r: nat)
    ensures r <= a
  {
    if k == 0 then a else Shr(a / 256, k - 1)
  }

  /** `bitsToTarget`: coefficient × 256^(exponent − 3); an exponent below 3
      shifts the coefficient right instead. */
  function BitsToTarget(bits: Bits): (t: nat)
    ensures t < Pow256(3 + Dropped(bits[3]))
    ensures bits[3] < 3 ==> t < Pow256(bits[3])
  {
    var exponent := bits[3];
    var coefficient := LittleEndianToInt(bits[..3]);
    if exponent >= 3 then
      ShlBelow(coefficient, 3, exponent - 3);
      Shl(coefficient, exponent - 3)
    else
      ShrBelow(coefficient, exponent, 3 - exponent);
      Shr(coefficient, 3 - exponent)
  }

  /** The number of significant bytes of t. */
  function ByteLength(t: nat): nat
  {
    if t == 0 then 0 else 1 + ByteLength(t / 256)
  }

  /** A positive t of n significant bytes lies between 256^(n-1) and 256^n. */
  lemma {:induction false} ByteLengthBounds(t: nat)
    requires t >= 1
    ensures ByteLength(t) >= 1 && Pow256(ByteLength(t) - 1) <= t < Pow256(ByteLength(t))
  {
    if t >= 256 {
      ByteLengthBounds(t / 256);
    }
  }

  /** The top three significant bytes of an n-byte value t, as an integer. */
  function Mantissa(t: nat, n: nat): nat
  {
    if n <= 3 then Shl(t, 3 - n) else Shr(t, n - 3)
  }

  /** How many low bytes a compact value with exponent e leaves out. */
  function Dropped(e: nat): nat
  {
    if e >= 3 then e - 3 else 0
  }

  /** `targetToBits`: the top three significant bytes of the target with the
      byte count as exponent; when the top byte would read as negative, one
      byte less and an exponent one higher. Targets of zero and of 2^256 or
      more have no compact form. The result keeps the target's high bytes
      exactly and drops only the ones its exponent leaves out. */
  function TargetToBits(target: nat): (r: Result<Bits>)
    ensures r.Ok? <==> 0 < target < TARGET_LIMIT
    ensures r.Ok? ==> 0x8000 <= LittleEndianToInt(r.value[..3]) && r.value[2] < 0x80
    ensures r.Ok? ==> var k := Dropped(r.value[3]);
      BitsToTarget(r.value) == Shl(Shr(target, k), k)
  {
    if target == 0 || target >= TARGET_LIMIT then Err(EncodeError)
    else
      var n := ByteLength(target);
      var m := Mantissa(target, n);
      CompactTarget(target, n);
      Ok(if m >= 0x80_0000 then Compact(m / 256, n + 1) else Compact(m, n))
  }

  /** The four bytes of a coefficient and an exponent, each cut to its width. */
  function Compact(c: nat, e: nat): (bits: Bits)
    ensures bits[3] == e % 256
    ensures c < 0x100_0000 ==> LittleEndianToInt(bits[..3]) == c && bits[2] == c / 0x1_0000
  {
    var bits := IntToLittleEndian(c, 3) + [e % 256];
    if c < 0x100_0000 then
      CoefficientOf(bits, c);
      bits
    else bits
  }

  /** Both branches of `TargetToBits` keep the high bytes of the target. */
  lemma CompactTarget(t: nat, n: nat)
    requires 0 < t < TARGET_LIMIT && n == ByteLength(t)
    ensures n <= 32 && Pow256(2) <= Mantissa(t, n) < Pow256(3)
    ensures var m := Mantissa(t, n);
      var bits := if m >= 0x80_0000 then Compact(m / 256, n + 1) else Compact(m, n);
      && 0x8000 <= LittleEndianToInt(bits[..3]) && bits[2] < 0x80
      && BitsToTarget(bits) == Shl(Shr(t, Dropped(bits[3])), Dropped(bits[3]))
  {
    ByteLengthBelowLimit(t);
    MantissaBounds(t, n);
    PowSmall();
    var m := Mantissa(t, n);
    if m >= 0x80_0000 {
      CompactFields(m / 256, n + 1);
      HighCoefficient(t, n);
    } else {
      CompactFields(m, n);
      LowCoefficient(t, n);
    }
  }

  /** What `BitsToTarget` reads back from a coefficient and exponent that fit. */
  lemma CompactFields(c: nat, e: nat)
    requires c < 0x100_0000 && e < 256
    ensures Compact(c, e)[3] == e && Compact(c, e)[2] == c / 0x1_0000
    ensures BitsToTarget(Compact(c, e)) == if e >= 3 then Shl(c, e - 3) else Shr(c, 3 - e)
  {
  }

  /** The compact form rounds down, by less than one unit of its last kept byte. */
  lemma TargetToBitsRoundsDown(target: nat)
    requires TargetToBits(target).Ok?
    ensures var bits := TargetToBits(target).value;
      BitsToTarget(bits) <= target < BitsToTarget(bits) + Pow256(Dropped(bits[3]))
  {
    ShiftFloor(target, Dropped(TargetToBits(target).value[3]));
  }

  /** Dropping k low bytes and moving back up loses less than 256^k. */
  lemma {:induction false} ShiftFloor(t: nat, k: nat)
    ensures Shl(Shr(t, k), k) <= t < Shl(Shr(t, k), k) + Pow256(k)
  {
    if k > 0 {
      ShiftFloor(t / 256, k - 1);
      ShlShl(Shr(t / 256, k - 1), k - 1, 1);
    }
  }

  lemma CoefficientOf(bits: seq<uint8>, c: nat)
    requires |bits| == 4 && c < 0x100_0000 && bits[..3] == IntToLittleEndian(c, 3)
    ensures LittleEndianToInt(bits[..3]) == c
    ensures bits[2] == c / 0x1_0000
  {
    PowValues();
    LittleEndianRoundTrip(c, 3);
    var b := IntToLittleEndian(c, 3);
    assert b[2] == c / 256 / 256 % 256;
    ModSplit(c, 256, 256);
  }

  lemma {:induction false} ShlShr(a: nat, k: nat)
    ensures Shr(Shl(a, k), k) == a
  {
    if k > 0 {
      ShlShl(a, k - 1, 1);
      ShlShr(a, k - 1);
    }
  }

  lemma {:induction false} ShrShr(t: nat, a: nat, b: nat)
    ensures Shr(Shr(t, a), b) == Shr(t, a + b)
  {
    if a > 0 {
      ShrShr(t / 256, a - 1, b);
    }
  }

  lemma {:induction false} ShlShl(x: nat, a: nat, b: nat)
    ensures Shl(Shl(x, a), b) == Shl(x, a + b)
  {
    if b > 0 {
      ShlShl(x, a, b - 1);
    }
  }

  /** Moving up by k bytes moves a byte-length range up by k. */
  lemma {:induction false} ShlRange(a: nat, i: nat, j: nat, k: nat)
    requires Pow256(i) <= a < Pow256(j)
    ensures Pow256(i + k) <= Shl(a, k) < Pow256(j + k)
  {
    if k > 0 {
      ShlRange(a, i, j, k - 1);
    }
  }

  lemma {:induction false} ShlBelow(a: nat, j: nat, k: nat)
    requires a < Pow256(j)
    ensures Shl(a, k) < Pow256(j + k)
  {
    if k > 0 {
      ShlBelow(a, j, k - 1);
    }
  }

  /** Moving down by k bytes moves a byte-length range down by k. */
  lemma {:induction false} ShrRange(t: nat, i: nat, j: nat, k: nat)
    requires Pow256(i + k) <= t < Pow256(j + k)
    ensures Pow256(i) <= Shr(t, k) < Pow256(j)
  {
    if k > 0 {
      ShrRange(t / 256, i, j, k - 1);
    }
  }

  lemma {:induction false} ShrBelow(t: nat, j: nat, k: nat)
    requires t < Pow256(j + k)
    ensures Shr(t, k) < Pow256(j)
  {
    if k > 0 {
      assert t / 256 < Pow256(j + k - 1);
      ShrBelow(t / 256, j, k - 1);
    }
  }

  lemma ByteLengthAtMost(t: nat, k: nat)
    requires 0 < t < Pow256(k)
    ensures ByteLength(t) <= k
  {
    var n := ByteLength(t);
    ByteLengthBounds(t);
    if n > k {
      Pow256Monotone(k, n - 1);
    }
  }

  lemma ByteLengthUnique(t: nat, j: nat)
    requires j >= 1 && Pow256(j - 1) <= t < Pow256(j)
    ensures ByteLength(t) == j
  {
    var n := ByteLength(t);
    ByteLengthBounds(t);
    if n < j {
      Pow256Monotone(n, j - 1);
    } else if n > j {
      Pow256Monotone(j, n - 1);
    }
  }

  /** The mantissa of an n-byte target has exactly three significant bytes. */
  lemma MantissaBounds(t: nat, n: nat)
    requires 0 < t && n == ByteLength(t)
    ensures Pow256(2) <= Mantissa(t, n) < Pow256(3)
  {
    ByteLengthBounds(t);
    if n <= 3 {
      ShlRange(t, n - 1, n, 3 - n);
    } else {
      ShrRange(t, 2, 3, n - 3);
    }
  }

  /** Below 0x800000 the mantissa is the coefficient and n the exponent. */
  lemma LowCoefficient(t: nat, n: nat)
    ensures n >= 3 ==> Mantissa(t, n) == Shr(t, n - 3)
    ensures n < 3 ==> Shr(Mantissa(t, n), 3 - n) == t
  {
    if n < 3 {
      ShlShr(t, 3 - n);
    }
  }

  /** From 0x800000 on, the coefficient is the mantissa less its low byte and
      the exponent is n + 1. */
  lemma HighCoefficient(t: nat, n: nat)
    requires n >= 1
    ensures n >= 2 ==> Mantissa(t, n) / 256 == Shr(t, n - 2)
    ensures n == 1 ==> Shr(Mantissa(t, n) / 256, 1) == t
  {
    var m := Mantissa(t, n);
    assert m / 256 == Shr(m, 1);
    if n >= 3 {
      ShrShr(t, n - 3, 1);
    } else if n == 2 {
      ShlShr(t, 1);
    } else {
      ShlShl(t, 1, 1);
      ShlShr(Shl(t, 1), 1);
      ShlShr(t, 1);
    }
  }

  /** A compact value is canonical when its exponent is at least 3 and its
      coefficient is the one `TargetToBits` picks: three significant bytes
      with the sign bit clear, or two whose top byte has the sign bit set. */
  predicate Canonical(bits: Bits)
  {
    var c := LittleEndianToInt(bits[..3]);
    && bits[3] >= 3
    && 0x8000 <= c < 0x80_0000
    && bits[3] - 3 + (if c >= 0x1_0000 then 3 else 2) <= 32
  }

  /** Encoding the target of canonical bits gives the same bits back. */
  lemma CanonicalRoundTrip(bits: Bits)
    requires Canonical(bits)
    ensures TargetToBits(BitsToTarget(bits)) == Ok(bits)
  {
    var e, c := bits[3] as nat, LittleEndianToInt(bits[..3]);
    assert bits == Compact(c, e) by {
      LittleEndianBytesRoundTrip(bits[..3]);
    }
    var t := BitsToTarget(bits);
    assert t == Shl(c, e - 3);
    if c >= 0x1_0000 {
      WideRoundTrip(c, e);
    } else {
      NarrowRoundTrip(c, e);
    }
  }

  /** A three-byte coefficient below 0x80_0000 is kept as it is. */
  lemma WideRoundTrip(c: nat, e: nat)
    requires 0x1_0000 <= c < 0x80_0000 && 3 <= e && e <= 32
    ensures TargetToBits(Shl(c, e - 3)) == Ok(Compact(c, e))
  {
    var t := Shl(c, e - 3);
    assert TargetToBits(t) == Ok(Compact(c, e)) by {
      WideCoefficient(c, e - 3);
      TargetToBitsOf(t, e);
    }
  }

  /** A two-byte coefficient with its top bit set is read back from the
      three-byte mantissa with its low byte zero, one exponent up. */
  lemma NarrowRoundTrip(c: nat, e: nat)
    requires 0x8000 <= c < 0x1_0000 && 3 <= e && e <= 33
    ensures TargetToBits(Shl(c, e - 3)) == Ok(Compact(c, e))
  {
    var t := Shl(c, e - 3);
    NarrowCoefficient(c, e - 3);
    HighMantissa(t, e - 1, c);
  }

  /** A mantissa whose low byte is zero and whose top bit is set loses that
      byte in the compact form, and the exponent goes one up. */
  lemma HighMantissa(t: nat, n: nat, c: nat)
    requires 0 < t < TARGET_LIMIT && n == ByteLength(t)
    requires 0x8000 <= c && Mantissa(t, n) == c * 256
    ensures TargetToBits(t) == Ok(Compact(c, n + 1))
  {
    assert c * 256 >= 0x80_0000 && c * 256 / 256 == c;
    TargetToBitsOf(t, n);
  }

  /** `TargetToBits` of a target in range, with its byte length named. */
  lemma TargetToBitsOf(t: nat, n: nat)
    requires 0 < t < TARGET_LIMIT && n == ByteLength(t)
    ensures var m := Mantissa(t, n);
      TargetToBits(t) == Ok(if m >= 0x80_0000 then Compact(m / 256, n + 1) else Compact(m, n))
  {
  }

  /** A coefficient of three significant bytes is its own mantissa. */
  lemma WideCoefficient(c: nat, k: nat)
    requires 0x1_0000 <= c < 0x80_0000 && k + 3 <= 32
    ensures ByteLength(Shl(c, k)) == k + 3 && Mantissa(Shl(c, k), k + 3) == c
    ensures Shl(c, k) < TARGET_LIMIT
  {
    PowSmall();
    ShlRange(c, 2, 3, k);
    ByteLengthUnique(Shl(c, k), k + 3);
    Pow256Monotone(k + 3, 32);
    TargetLimitIsPow();
    ShlShr(c, k);
  }

  /** A coefficient of two significant bytes, the top one with its sign bit
      set, comes back as a mantissa one byte longer. */
  lemma NarrowCoefficient(c: nat, k: nat)
    requires 0x8000 <= c < 0x1_0000 && k + 2 <= 32
    ensures ByteLength(Shl(c, k)) == k + 2 && Mantissa(Shl(c, k), k + 2) == c * 256
    ensures Shl(c, k) < TARGET_LIMIT
  {
    PowSmall();
    ShlRange(c, 1, 2, k);
    ByteLengthUnique(Shl(c, k), k + 2);
    Pow256Monotone(k + 2, 32);
    TargetLimitIsPow();
    if k >= 2 {
      ShlShl(c, 1, k - 1);
      ShlShr(Shl(c, 1), k - 1);
    }
  }

  lemma PowSmall()
    ensures Pow256(1) == 0x100 && Pow256(2) == 0x1_0000 && Pow256(3) == 0x100_0000
  {
  }

  /** The time since the last retarget, clamped to a quarter and four times
      the two-week period. */
  function ClampedTimespan(timeDifferential: int): (d: nat)
    ensures TWO_WEEKS / 4 <= d <= TWO_WEEKS * 4
    ensures TWO_WEEKS / 4 <= timeDifferential <= TWO_WEEKS * 4 ==> d == timeDifferential
    ensures timeDifferential > TWO_WEEKS * 4 ==> d == TWO_WEEKS * 4
    ensures timeDifferential < TWO_WEEKS / 4 ==> d == TWO_WEEKS / 4
  {
    var capped := if timeDifferential > TWO_WEEKS * 4 then TWO_WEEKS * 4 else timeDifferential;
    if capped < TWO_WEEKS / 4 then TWO_WEEKS / 4 else capped
  }

  /** The retargeted value: the previous target scaled by the clamped
      timespan over two weeks, rounded down. It moves by at most a factor
      of four either way. */
  function NewTarget(previousBits: Bits, timeDifferential: int): (t: nat)
    ensures BitsToTarget(previousBits) / 4 <= t <= BitsToTarget(previousBits) * 4
  {
    var prev := BitsToTarget(previousBits);
    var d := ClampedTimespan(timeDifferential);
    MulAtLeast(prev, d);
    DivNat(prev * d, TWO_WEEKS);
    ScaleLower(prev, d);
    ScaleUpper(prev, d);
    prev * d / TWO_WEEKS
  }

  lemma ScaleLower(prev: nat, d: nat)
    requires TWO_WEEKS / 4 <= d
    ensures prev / 4 <= prev * d / TWO_WEEKS
  {
    var q := TWO_WEEKS / 4;
    MulMonotone(prev, q, d);
    assert prev * q == TWO_WEEKS * (prev / 4) + q * (prev % 4);
    DivModUnique(prev * q, TWO_WEEKS, prev / 4, q * (prev % 4));
    DivMonotone(prev * q, prev * d, TWO_WEEKS);
  }

  lemma ScaleUpper(prev: nat, d: nat)
    requires d <= TWO_WEEKS * 4
    ensures prev * d / TWO_WEEKS <= prev * 4
  {
    var w := TWO_WEEKS * 4;
    MulMonotone(prev, d, w);
    assert prev * w == TWO_WEEKS * (prev * 4);
    DivModUnique(prev * w, TWO_WEEKS, prev * 4, 0);
    DivMonotone(prev * d, prev * w, TWO_WEEKS);
  }

  lemma DivMonotone(a: nat, b: nat, m: nat)
    requires a <= b && m > 0
    ensures a / m <= b / m
  {
    var qa, qb := a / m, b / m;
    assert a == m * qa + a % m;
    assert b == m * qb + b % m;
    if qa > qb {
      MulMonotone(m, qb + 1, qa);
    }
  }

  /** `calculateNewBits`: the compact form of the retargeted value. It is
      normalized, rounds the new target down by less than one unit of its
      last kept byte, and so lies within a factor of four of the previous
      target, up to that unit. */
  function CalculateNewBits(previousBits: Bits, timeDifferential: int): (r: Result<Bits>)
    ensures r.Ok? <==> 0 < NewTarget(previousBits, timeDifferential) < TARGET_LIMIT
    ensures r.Ok? ==> 0x8000 <= LittleEndianToInt(r.value[..3]) && r.value[2] < 0x80
    ensures r.Ok? ==> var t := NewTarget(previousBits, timeDifferential);
      BitsToTarget(r.value) <= t < BitsToTarget(r.value) + Pow256(Dropped(r.value[3]))
    ensures r.Ok? ==> BitsToTarget(r.value) <= 4 * BitsToTarget(previousBits)
    ensures r.Ok? ==> BitsToTarget(previousBits) / 4 < BitsToTarget(r.value) + Pow256(Dropped(r.value[3]))
  {
    var t := NewTarget(previousBits, timeDifferential);
    var r := TargetToBits(t);
    if r.Ok? then
      TargetToBitsRoundsDown(t);
      r
    else r
  }
}
