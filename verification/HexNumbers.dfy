/** Hexadecimal integers of any length as correctly rounded floating-point numbers. */
module HexNumbers {
  import opened Wrappers

  const PRECISION: nat := 53

  /** k * 2^e. */
  function Shift(k: nat, e: nat): nat {
    if e == 0 then k else 2 * Shift(k, e - 1)
  }

  /** A floating-point number with magnitude mantissa * 2^exponent, unless that is past the range. */
  datatype Double = Double(negative: bool, mantissa: nat, exponent: nat, infinite: bool)

  predicate IsHexDigit(c: char) {
    '0' <= c <= '9' || 'a' <= c <= 'f' || 'A' <= c <= 'F'
  }

  function HexDigitValue(c: char): (r: nat)
    requires IsHexDigit(c)
    ensures r < 16 && (r == 0 <==> c == '0')
  {
    if '0' <= c <= '9' then (c as int) - ('0' as int)
    else if 'a' <= c <= 'f' then (c as int) - ('a' as int) + 10
    else (c as int) - ('A' as int) + 10
  }

  predicate AllHex(digits: string) {
    forall i :: 0 <= i < |digits| ==> IsHexDigit(digits[i])
  }

  /** The exact integer that the digits stand for. */
  function HexValue(digits: string): nat
    requires AllHex(digits)
  {
    if digits == "" then 0 else 16 * HexValue(digits[..|digits| - 1]) + HexDigitValue(digits[|digits| - 1])
  }

  // ----- rounding -----

  function Distance(a: int, b: int): nat {
    if a < b then b - a else a - b
  }

  /** With 2^e as the unit, n is q units and a rest; the mantissa is the nearer of q and q + 1, and of two equally near
      the even one. */
  predicate Nearest(n: nat, e: nat, q: nat, rest: nat, mantissa: nat) {
    n == Shift(q, e) + rest && rest < Shift(1, e) &&
    mantissa == if 2 * rest > Shift(1, e) || (2 * rest == Shift(1, e) && q % 2 == 1) then q + 1 else q
  }

  /** n rounded to p significant bits, half to even: the unit is such that the quotient has exactly p bits, unless n
      has p bits or less itself. */
  ghost predicate RoundsTo(p: nat, n: nat, mantissa: nat, exponent: nat) {
    p > 0 && exists q: nat, rest: nat :: Nearest(n, exponent, q, rest, mantissa) && q < Shift(1, p) && (exponent > 0 ==> q >= Shift(1, p - 1))
  }

  // ----- shifts -----

  lemma {:induction false} ShiftAdds(a: nat, b: nat, e: nat)
    ensures Shift(a + b, e) == Shift(a, e) + Shift(b, e)
  {
    if e > 0 { ShiftAdds(a, b, e - 1); }
  }

  /** More units are more by a unit at least. */
  lemma ShiftRises(a: nat, b: nat, e: nat)
    ensures a <= b ==> Shift(a, e) <= Shift(b, e)
    ensures a < b ==> Shift(a, e) + Shift(1, e) <= Shift(b, e)
  {
    if a < b {
      ShiftAdds(a, b - a, e);
      ShiftAdds(1, b - a - 1, e);
    }
  }

  lemma {:induction false} ShiftShift(k: nat, a: nat, b: nat)
    ensures Shift(Shift(k, a), b) == Shift(k, a + b)
  {
    if b > 0 { ShiftShift(k, a, b - 1); }
  }

  lemma {:induction false} ShiftFurther(k: nat, a: nat, b: nat)
    requires a <= b
    ensures Shift(k, a) <= Shift(k, b)
  {
    if a < b { ShiftFurther(k, a, b - 1); }
  }

  lemma {:induction false} ShiftPositive(e: nat)
    ensures Shift(1, e) > 0 && Shift(0, e) == 0
  {
    if e > 0 { ShiftPositive(e - 1); }
  }

  // ----- what rounding means -----

  /** The chosen one of the two candidates around n, in plain numbers. */
  lemma Candidates(n: nat, floor: nat, unit: nat, up: bool, even: bool, value: nat)
    requires floor <= n < floor + unit && (up <==> 2 * (n - floor) > unit || (2 * (n - floor) == unit && !even))
    requires value == if up then floor + unit else floor
    ensures 2 * Distance(n, value) <= unit && Distance(n, value) <= n - floor
    ensures 2 * Distance(n, value) == unit ==> (even <==> !up)
  {
  }

  lemma NoCloser(n: nat, floor: nat, unit: nat, up: bool, even: bool, value: nat, other: nat)
    requires floor <= n < floor + unit && (up <==> 2 * (n - floor) > unit || (2 * (n - floor) == unit && !even))
    requires value == (if up then floor + unit else floor) && (other <= floor || floor + unit <= other)
    ensures Distance(n, value) <= Distance(n, other)
    ensures Distance(n, value) == Distance(n, other) && other != value ==> (even <==> !up)
  {
  }

  lemma NearestError(n: nat, e: nat, q: nat, rest: nat, mantissa: nat)
    requires Nearest(n, e, q, rest, mantissa)
    ensures q <= mantissa <= q + 1 && 2 * Distance(n, Shift(mantissa, e)) <= Shift(1, e) && Distance(n, Shift(mantissa, e)) <= rest
    ensures 2 * Distance(n, Shift(mantissa, e)) == Shift(1, e) ==> mantissa % 2 == 0
  {
    ShiftAdds(q, 1, e);
    Candidates(n, Shift(q, e), Shift(1, e), mantissa == q + 1, q % 2 == 0, Shift(mantissa, e));
  }

  /** The mantissa fits, the error is at most half a unit, and a tie goes to the even mantissa. */
  lemma RoundingError(p: nat, n: nat, mantissa: nat, exponent: nat)
    requires RoundsTo(p, n, mantissa, exponent)
    ensures mantissa <= Shift(1, p) && 2 * Distance(n, Shift(mantissa, exponent)) <= Shift(1, exponent)
    ensures 2 * Distance(n, Shift(mantissa, exponent)) == Shift(1, exponent) ==> mantissa % 2 == 0
    ensures exponent > 0 ==> mantissa >= Shift(1, p - 1)
  {
    var q: nat, rest: nat :| Nearest(n, exponent, q, rest, mantissa) && q < Shift(1, p) && (exponent > 0 ==> q >= Shift(1, p - 1));
    NearestError(n, exponent, q, rest, mantissa);
  }

  lemma LargeEnough(p: nat, q: nat, exponent: nat)
    requires p > 0 && (exponent > 0 ==> q >= Shift(1, p - 1))
    ensures exponent > 0 ==> Shift(q, exponent) >= Shift(1, p)
  {
    if exponent > 0 {
      ShiftFurther(q, 1, exponent);
      assert Shift(q, 1) == 2 * Shift(q, 0) == 2 * q;
    }
  }

  /** Numbers of p bits or less are exact. */
  lemma RoundingExact(p: nat, n: nat, mantissa: nat, exponent: nat)
    requires RoundsTo(p, n, mantissa, exponent) && n < Shift(1, p)
    ensures mantissa == n && exponent == 0
  {
    var q: nat, rest: nat :| Nearest(n, exponent, q, rest, mantissa) && q < Shift(1, p) && (exponent > 0 ==> q >= Shift(1, p - 1));
    LargeEnough(p, q, exponent);
  }

  /** A representable integer of at least 2^(p - 1) units has a last place no finer than the unit. */
  lemma CoarserThanUnit(p: nat, a: nat, up: nat, exponent: nat)
    requires p > 0 && a < Shift(1, p) && Shift(a, up) >= Shift(Shift(1, p - 1), exponent)
    ensures exponent <= up
  {
    ShiftRises(a, Shift(1, p), up);
    ShiftShift(1, p, up);
    ShiftShift(1, p - 1, exponent);
    ShiftPositive(up);
    if up < exponent { ShiftFurther(1, p + up, p - 1 + exponent); }
  }

  /** A whole number of units, or less than the least quotient in units, is not between the two candidates, so it is
      not closer than the chosen one. */
  lemma NotBetween(n: nat, e: nat, q: nat, rest: nat, mantissa: nat, value: nat, k: nat, low: nat)
    requires Nearest(n, e, q, rest, mantissa) && (value == Shift(k, e) || (value < Shift(low, e) && low <= q))
    ensures Distance(n, Shift(mantissa, e)) <= Distance(n, value)
    ensures Distance(n, Shift(mantissa, e)) == Distance(n, value) && value != Shift(mantissa, e) ==> mantissa % 2 == 0
  {
    ShiftAdds(q, 1, e);
    ShiftRises(low, q, e);
    ShiftRises(k, q, e);
    ShiftRises(q + 1, k, e);
    NoCloser(n, Shift(q, e), Shift(1, e), mantissa == q + 1, q % 2 == 0, Shift(mantissa, e), value);
  }

  /** A representable integer is a whole number of units, or less than 2^(p - 1) of them. */
  lemma InUnits(p: nat, a: nat, up: nat, exponent: nat) returns (k: nat)
    requires p > 0 && a < Shift(1, p)
    ensures Shift(a, up) == Shift(k, exponent) || (exponent > 0 && Shift(a, up) < Shift(Shift(1, p - 1), exponent))
  {
    k := 0;
    if exponent == 0 {
      k := Shift(a, up);
    } else if Shift(a, up) >= Shift(Shift(1, p - 1), exponent) {
      CoarserThanUnit(p, a, up, exponent);
      k := Shift(a, up - exponent);
      ShiftShift(a, up - exponent, exponent);
    }
  }

  /** No integer with p significant bits is closer, and an equally close one leaves the even mantissa. */
  lemma NearestInteger(p: nat, n: nat, mantissa: nat, exponent: nat, a: nat, up: nat)
    requires RoundsTo(p, n, mantissa, exponent) && a < Shift(1, p)
    ensures Distance(n, Shift(mantissa, exponent)) <= Distance(n, Shift(a, up))
    ensures Distance(n, Shift(mantissa, exponent)) == Distance(n, Shift(a, up)) && Shift(a, up) != Shift(mantissa, exponent) ==> mantissa % 2 == 0
  {
    var q: nat, rest: nat :| Nearest(n, exponent, q, rest, mantissa) && q < Shift(1, p) && (exponent > 0 ==> q >= Shift(1, p - 1));
    var k := InUnits(p, a, up, exponent);
    NotBetween(n, exponent, q, rest, mantissa, Shift(a, up), k, Shift(1, p - 1));
  }

  lemma FractionBelow(p: nat, floor: nat, rest: nat, off: nat, a: nat, down: nat)
    requires a < Shift(1, p) && (floor >= Shift(1, p) || rest == 0) && off <= rest
    ensures Shift(off, down) <= Distance(Shift(floor + rest, down), a)
  {
    ShiftRises(off, rest, down);
    ShiftAdds(floor, rest, down);
    ShiftFurther(floor, 0, down);
    ShiftPositive(down);
  }

  /** No fraction with p significant bits is closer either. In parts of 2^-down, n is n * 2^down of them. */
  lemma NearestFraction(p: nat, n: nat, mantissa: nat, exponent: nat, a: nat, down: nat)
    requires RoundsTo(p, n, mantissa, exponent) && a < Shift(1, p)
    ensures Shift(Distance(n, Shift(mantissa, exponent)), down) <= Distance(Shift(n, down), a)
  {
    var q: nat, rest: nat :| Nearest(n, exponent, q, rest, mantissa) && q < Shift(1, p) && (exponent > 0 ==> q >= Shift(1, p - 1));
    NearestError(n, exponent, q, rest, mantissa);
    LargeEnough(p, q, exponent);
    ShiftPositive(exponent);
    FractionBelow(p, Shift(q, exponent), rest, Distance(n, Shift(mantissa, exponent)), a, down);
  }

  /** Only one unit gives a quotient of p bits. */
  lemma SameUnit(p: nat, n: nat, q: nat, rest: nat, mantissa: nat, exponent: nat, q': nat, exponent': nat)
    requires p > 0 && Nearest(n, exponent, q, rest, mantissa) && q < Shift(1, p) && q' >= Shift(1, p - 1) && Shift(q', exponent') <= n
    ensures exponent' <= exponent
  {
    ShiftRises(Shift(1, p - 1), q', exponent');
    ShiftShift(1, p - 1, exponent');
    ShiftRises(q, Shift(1, p), exponent);
    ShiftShift(1, p, exponent);
    if exponent < exponent' { ShiftFurther(1, p + exponent, p - 1 + exponent'); }
  }

  lemma SameQuotient(n: nat, exponent: nat, q: nat, rest: nat, mantissa: nat, q': nat, rest': nat, mantissa': nat)
    requires Nearest(n, exponent, q, rest, mantissa) && Nearest(n, exponent, q', rest', mantissa')
    ensures mantissa == mantissa'
  {
    ShiftRises(q, q', exponent);
    ShiftRises(q', q, exponent);
  }

  /** The result is determined. */
  lemma RoundingUnique(p: nat, n: nat, mantissa: nat, exponent: nat, mantissa': nat, exponent': nat)
    requires RoundsTo(p, n, mantissa, exponent) && RoundsTo(p, n, mantissa', exponent')
    ensures mantissa == mantissa' && exponent == exponent'
  {
    var q: nat, rest: nat :| Nearest(n, exponent, q, rest, mantissa) && q < Shift(1, p) && (exponent > 0 ==> q >= Shift(1, p - 1));
    var q': nat, rest': nat :| Nearest(n, exponent', q', rest', mantissa') && q' < Shift(1, p) && (exponent' > 0 ==> q' >= Shift(1, p - 1));
    if exponent' > 0 { SameUnit(p, n, q, rest, mantissa, exponent, q', exponent'); }
    if exponent > 0 { SameUnit(p, n, q', rest', mantissa', exponent', q, exponent); }
    SameQuotient(n, exponent, q, rest, mantissa, q', rest', mantissa');
  }

  // ----- the range of doubles -----

  /** The least power of two that no double reaches. */
  const MAX_EXPONENT: nat := 1024

  /** A magnitude that becomes infinity when it is put together. */
  predicate Overflows(mantissa: nat, exponent: nat) {
    Shift(mantissa, exponent) >= Shift(1, MAX_EXPONENT)
  }

  /** Rounding first and testing the range then is what section 4.3.1 of IEEE 754-2008 asks for: the result is
      infinite just when n is at least half a unit of the last place past the largest finite double. */
  lemma OverflowBound(p: nat, n: nat, mantissa: nat, exponent: nat, limit: nat)
    requires RoundsTo(p, n, mantissa, exponent) && p < limit
    ensures Shift(mantissa, exponent) >= Shift(1, limit) <==> 2 * n + Shift(1, limit - p) >= Shift(1, limit + 1)
  {
    var q: nat, rest: nat :| Nearest(n, exponent, q, rest, mantissa) && q < Shift(1, p) && (exponent > 0 ==> q >= Shift(1, p - 1));
    OverflowAt(p, n, mantissa, exponent, limit, q, rest);
  }

  /** By the size of the unit: with the one of the last binade below the limit, rounding up from its last number is
      what overflows. */
  lemma OverflowAt(p: nat, n: nat, mantissa: nat, exponent: nat, limit: nat, q: nat, rest: nat)
    requires 0 < p < limit && Nearest(n, exponent, q, rest, mantissa) && q < Shift(1, p) && (exponent > 0 ==> q >= Shift(1, p - 1))
    ensures Shift(mantissa, exponent) >= Shift(1, limit) <==> 2 * n + Shift(1, limit - p) >= Shift(1, limit + 1)
  {
    if exponent > limit - p {
      LastBinadePassed(p, n, mantissa, exponent, limit, q, rest);
    } else if exponent == limit - p {
      LastBinade(p, n, mantissa, exponent, limit, q, rest);
    } else {
      LastBinadeAhead(p, n, mantissa, exponent, limit, q, rest);
    }
  }

  lemma LastBinadePassed(p: nat, n: nat, mantissa: nat, exponent: nat, limit: nat, q: nat, rest: nat)
    requires 0 < p < limit && exponent > limit - p && Nearest(n, exponent, q, rest, mantissa) && q >= Shift(1, p - 1)
    ensures Shift(mantissa, exponent) >= Shift(1, limit) && 2 * n >= Shift(1, limit + 1)
  {
    ShiftRises(Shift(1, p - 1), q, exponent);
    ShiftRises(q, mantissa, exponent);
    ShiftShift(1, p - 1, exponent);
    ShiftFurther(1, limit, p - 1 + exponent);
  }

  lemma LastBinade(p: nat, n: nat, mantissa: nat, exponent: nat, limit: nat, q: nat, rest: nat)
    requires Nearest(n, exponent, q, rest, mantissa) && q < Shift(1, p) && 0 < p < limit && exponent == limit - p
    ensures Shift(mantissa, exponent) >= Shift(1, limit) <==> 2 * n + Shift(1, exponent) >= Shift(1, limit + 1)
  {
    var last := Shift(1, p) - 1;
    ShiftShift(1, p, exponent);
    ShiftAdds(last, 1, exponent);
    ShiftPositive(exponent);
    ShiftRises(q, last, exponent);
    ShiftRises(mantissa, Shift(1, p), exponent);
    LastIsOdd(p);
  }

  /** The largest mantissa is odd, so a tie with it is rounded up. */
  lemma LastIsOdd(p: nat)
    requires p > 0
    ensures (Shift(1, p) - 1) % 2 == 1
  {
    ShiftPositive(p - 1);
    OneBelowEven(Shift(1, p - 1));
  }

  lemma OneBelowEven(k: nat)
    requires k > 0
    ensures (2 * k - 1) % 2 == 1
  {
    assert 2 * k - 1 == 2 * (k - 1) + 1;
  }

  lemma LastBinadeAhead(p: nat, n: nat, mantissa: nat, exponent: nat, limit: nat, q: nat, rest: nat)
    requires Nearest(n, exponent, q, rest, mantissa) && q < Shift(1, p) && 0 < p < limit && exponent < limit - p
    ensures Shift(mantissa, exponent) < Shift(1, limit) && 2 * n + Shift(1, limit - p) < Shift(1, limit + 1)
  {
    ShiftShift(1, p, exponent);
    ShiftRises(mantissa, Shift(1, p), exponent);
    ShiftAdds(q, 1, exponent);
    ShiftRises(q + 1, Shift(1, p), exponent);
    ShiftFurther(1, p + exponent, limit - 1);
    ShiftFurther(1, limit - p, limit - 1);
    ShiftPositive(limit - 1);
  }

  // ----- scanning bits -----

  function Bit(on: bool): (r: nat) {
    if on then 1 else 0
  }

  /** What the scanner keeps of the bits read so far, whose value is n: the first p of them, the next, and whether
      any after that was set. */
  ghost predicate Kept(p: nat, n: nat, bits: nat, mantissa: nat, round: bool, sticky: bool) {
    p > 0 && (bits == 0 ==> n == 0) && (bits > 0 ==> Shift(1, bits - 1) <= n < Shift(1, bits)) &&
    if bits <= p then
      mantissa == n && !round && !sticky
    else
      Shift(1, p - 1) <= mantissa < Shift(1, p) && exists rest: nat :: Dropped(p, n, bits, mantissa, round, sticky, rest)
  }

  /** The same, to be taken apart only where Kept is named. */
  ghost predicate Scanned(p: nat, n: nat, bits: nat, mantissa: nat, round: bool, sticky: bool) {
    forall m {:trigger Kept(p, n, bits, m, round, sticky)} :: m == mantissa ==> Kept(p, n, bits, m, round, sticky)
  }

  predicate Dropped(p: nat, n: nat, bits: nat, mantissa: nat, round: bool, sticky: bool, rest: nat) {
    bits > p && n == Shift(2 * mantissa + Bit(round), bits - p - 1) + rest && rest < Shift(1, bits - p - 1) && (sticky <==> rest != 0)
  }

  /** One more bit. */
  lemma ScanBit(p: nat, n: nat, bits: nat, mantissa: nat, round: bool, sticky: bool, on: bool)
    requires Scanned(p, n, bits, mantissa, round, sticky) && (bits == 0 ==> on)
    ensures bits < p ==> Scanned(p, 2 * n + Bit(on), bits + 1, 2 * mantissa + Bit(on), round, sticky)
    ensures bits == p ==> Scanned(p, 2 * n + Bit(on), bits + 1, mantissa, on, sticky)
    ensures bits > p ==> Scanned(p, 2 * n + Bit(on), bits + 1, mantissa, round, sticky || on)
  {
    assert Kept(p, n, bits, mantissa, round, sticky);
    if bits == p {
      assert Dropped(p, 2 * n + Bit(on), bits + 1, mantissa, on, false, 0);
    } else if bits > p {
      var rest: nat :| Dropped(p, n, bits, mantissa, round, sticky, rest);
      assert Dropped(p, 2 * n + Bit(on), bits + 1, mantissa, round, sticky || on, 2 * rest + Bit(on));
    }
  }

  /** Rounding up when the dropped part is above a half, or just a half and the mantissa odd. */
  lemma ScannedRounds(p: nat, n: nat, bits: nat, mantissa: nat, round: bool, sticky: bool)
    requires Scanned(p, n, bits, mantissa, round, sticky)
    ensures bits <= p ==> RoundsTo(p, n, mantissa, 0)
    ensures bits > p ==> RoundsTo(p, n, if round && (sticky || mantissa % 2 == 1) then mantissa + 1 else mantissa, bits - p)
  {
    assert Kept(p, n, bits, mantissa, round, sticky);
    if bits <= p {
      ShiftFurther(1, bits, p);
      assert Nearest(n, 0, n, 0, mantissa);
    } else {
      var e := bits - p - 1;
      var rest: nat :| Dropped(p, n, bits, mantissa, round, sticky, rest);
      ShiftAdds(mantissa, mantissa, e);
      ShiftAdds(2 * mantissa, Bit(round), e);
      ShiftPositive(e);
      assert Nearest(n, e + 1, mantissa, Shift(Bit(round), e) + rest,
        if round && (sticky || mantissa % 2 == 1) then mantissa + 1 else mantissa);
    }
  }

  // ----- the parser -----

  lemma HexValueStep(digits: string, i: nat)
    requires AllHex(digits) && i < |digits|
    ensures AllHex(digits[..i]) && AllHex(digits[..i + 1]) && HexValue(digits[..i + 1]) == 16 * HexValue(digits[..i]) + HexDigitValue(digits[i])
  {
    assert digits[..i + 1][..i] == digits[..i];
  }

  /** A nibble without its lowest bits. */
  function Upper(nibble: nat, low: nat): nat {
    if low == 0 then nibble else Upper(nibble, low - 1) / 2
  }

  predicate BitSet(nibble: nat, bit: nat) {
    Upper(nibble, bit) % 2 == 1
  }

  lemma UpperFour(nibble: nat)
    requires nibble < 16
    ensures Upper(nibble, 4) == 0
  {
    assert Upper(nibble, 1) < 8;
    assert Upper(nibble, 2) < 4;
    assert Upper(nibble, 3) < 2;
  }

  /** The highest bit of a nibble that is not zero. */
  method FirstBit(nibble: nat) returns (firstBit: nat)
    requires 0 < nibble < 16
    ensures firstBit <= 3 && BitSet(nibble, firstBit) && Upper(nibble, firstBit + 1) == 0
  {
    UpperFour(nibble);
    firstBit := 3;
    while firstBit > 0 && !BitSet(nibble, firstBit)
      invariant firstBit <= 3 && Upper(nibble, firstBit + 1) == 0
    {
      firstBit := firstBit - 1;
    }
  }

  /** The digits are checked, and the first that is not zero found. */
  method FindSignificant(text: string, firstDigit: nat) returns (ok: bool, first: nat)
    requires firstDigit <= |text|
    ensures ok <==> AllHex(text[firstDigit..])
    ensures ok ==> firstDigit <= first <= |text| && (first < |text| ==> text[first] != '0')
    ensures ok ==> forall i :: firstDigit <= i < first ==> text[i] == '0'
  {
    first := |text|;
    var index := firstDigit;
    while index < |text|
      invariant firstDigit <= index <= |text| && (first == |text| || firstDigit <= first < index)
      invariant forall i :: firstDigit <= i < index ==> IsHexDigit(text[i])
      invariant first < |text| ==> text[first] != '0'
      invariant forall i :: firstDigit <= i < index && i < first ==> text[i] == '0'
    {
      if !IsHexDigit(text[index]) {
        assert text[firstDigit..][index - firstDigit] == text[index];
        return false, 0;
      }
      if first == |text| && text[index] != '0' {
        first := index;
      }
      index := index + 1;
    }
    return true, first;
  }

  lemma {:induction false} ZeroValue(digits: string, count: nat)
    requires AllHex(digits) && count <= |digits| && forall i :: 0 <= i < count ==> digits[i] == '0'
    ensures AllHex(digits[..count]) && HexValue(digits[..count]) == 0
  {
    if count > 0 {
      ZeroValue(digits, count - 1);
      HexValueStep(digits, count - 1);
    }
  }

  /** Converts the digits after the two characters of the prefix, rounding correctly whatever their number. */
  method ParseLuaHexInteger(text: string, prefixOffset: nat) returns (r: Option<Double>)
    requires prefixOffset + 2 <= |text|
    ensures r.Some? <==> prefixOffset + 2 < |text| && AllHex(text[prefixOffset + 2..])
    ensures r.Some? ==> (r.value.negative <==> prefixOffset != 0 && text[0] == '-')
    ensures r.Some? ==> RoundsTo(53, HexValue(text[prefixOffset + 2..]), r.value.mantissa, r.value.exponent)
    ensures r.Some? ==> (r.value.infinite <==> Shift(r.value.mantissa, r.value.exponent) >= Shift(1, 1024))
  {
    var firstDigit := prefixOffset + 2;
    if firstDigit == |text| {
      return None;
    }
    var ok, firstSignificant := FindSignificant(text, firstDigit);
    if !ok {
      return None;
    }
    var negative := prefixOffset != 0 && text[0] == '-';
    ghost var digits := text[firstDigit..];
    ZeroValue(digits, firstSignificant - firstDigit);
    if firstSignificant == |text| {
      assert digits[..|digits|] == digits;
      ScannedRounds(PRECISION, 0, 0, 0, false, false);
      ShiftPositive(MAX_EXPONENT);
      return Some(Double(negative, 0, 0, false));
    }
    assert text[firstDigit..firstSignificant] == digits[..firstSignificant - firstDigit];
    var mantissa, bitCount, round, sticky := ScanDigits(PRECISION, text, firstDigit, firstSignificant);
    ScannedRounds(PRECISION, HexValue(digits), bitCount, mantissa, round, sticky);
    var exponent: nat := 0;
    if bitCount > PRECISION {
      exponent := bitCount - PRECISION;
      if round && (sticky || mantissa % 2 != 0) {
        mantissa := mantissa + 1;
      }
    }
    return Some(Double(negative, mantissa, exponent, Overflows(mantissa, exponent)));
  }

  method ScanDigits(precision: nat, text: string, firstDigit: nat, first: nat) returns (mantissa: nat, bitCount: nat, round: bool, sticky: bool)
    requires precision > 0 && firstDigit <= first < |text| && AllHex(text[firstDigit..]) && text[first] != '0'
    requires AllHex(text[firstDigit..first]) && HexValue(text[firstDigit..first]) == 0
    ensures Scanned(precision, HexValue(text[firstDigit..]), bitCount, mantissa, round, sticky)
  {
    ghost var digits := text[firstDigit..];
    mantissa, bitCount, round, sticky := 0, 0, false, false;
    assert text[firstDigit..first] == digits[..first - firstDigit];
    var index := first;
    while index < |text|
      invariant first <= index <= |text| && (bitCount == 0 <==> index == first) && AllHex(digits[..index - firstDigit])
      invariant Scanned(precision, HexValue(digits[..index - firstDigit]), bitCount, mantissa, round, sticky)
    {
      assert digits[index - firstDigit] == text[index];
      HexValueStep(digits, index - firstDigit);
      mantissa, bitCount, round, sticky :=
        ScanNibble(precision, HexDigitValue(text[index]), HexValue(digits[..index - firstDigit]), mantissa, bitCount, round, sticky);
      index := index + 1;
    }
    assert digits[..|digits|] == digits;
  }

  /** The number so far once the bits of a digit from `left` on have been read. */
  function WithUpperBits(n: nat, nibble: nat, left: nat): nat
    requires left <= 4
  {
    Shift(n, 4 - left) + Upper(nibble, left)
  }

  lemma UpperBitsEnds(n: nat, nibble: nat, firstBit: nat)
    requires nibble < 16 && firstBit <= 3 && (firstBit == 3 || (n == 0 && Upper(nibble, firstBit + 1) == 0))
    ensures WithUpperBits(n, nibble, firstBit + 1) == n && WithUpperBits(n, nibble, 0) == 16 * n + nibble
  {
    UpperFour(nibble);
    ShiftPositive(4 - (firstBit + 1));
    assert Shift(n, 0) == n && Shift(n, 1) == 2 * n && Shift(n, 2) == 4 * n && Shift(n, 3) == 8 * n;
  }

  /** The bits of one digit, from the highest; zeros before the first bit of the number are skipped. */
  method ScanNibble(precision: nat, nibble: nat, ghost n: nat, mantissa0: nat, bitCount0: nat, round0: bool, sticky0: bool)
    returns (mantissa: nat, bitCount: nat, round: bool, sticky: bool)
    requires nibble < 16 && Scanned(precision, n, bitCount0, mantissa0, round0, sticky0) && (bitCount0 == 0 ==> nibble > 0)
    ensures bitCount > 0 && Scanned(precision, 16 * n + nibble, bitCount, mantissa, round, sticky)
  {
    mantissa, bitCount, round, sticky := mantissa0, bitCount0, round0, sticky0;
    var firstBit: nat := 3;
    assert Kept(precision, n, bitCount0, mantissa0, round0, sticky0);
    if bitCount == 0 {
      firstBit := FirstBit(nibble);
    }
    UpperBitsEnds(n, nibble, firstBit);
    var left: nat := firstBit + 1;
    while left > 0
      invariant left <= firstBit + 1 && bitCount == bitCount0 + (firstBit + 1 - left)
      invariant Scanned(precision, WithUpperBits(n, nibble, left), bitCount, mantissa, round, sticky)
    {
      var bit := left - 1;
      mantissa, round, sticky := TakeBit(precision, WithUpperBits(n, nibble, left), mantissa, bitCount, round, sticky, BitSet(nibble, bit));
      bitCount := bitCount + 1;
      left := bit;
    }
  }

  /** The first bits go to the mantissa, the next decides the rounding, the others only break ties. */
  method TakeBit(precision: nat, ghost n: nat, mantissa0: nat, bitCount: nat, round0: bool, sticky0: bool, on: bool)
    returns (mantissa: nat, round: bool, sticky: bool)
    requires Scanned(precision, n, bitCount, mantissa0, round0, sticky0) && (bitCount == 0 ==> on)
    ensures Scanned(precision, 2 * n + Bit(on), bitCount + 1, mantissa, round, sticky)
  {
    ScanBit(precision, n, bitCount, mantissa0, round0, sticky0, on);
    mantissa, round, sticky := mantissa0, round0, sticky0;
    if bitCount < precision {
      mantissa := 2 * mantissa;
      if on {
        mantissa := mantissa + 1;
      }
    } else if bitCount == precision {
      round := on;
    } else if on {
      sticky := true;
    }
  }
}
