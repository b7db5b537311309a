/** The integer square root of src/sensors/sensor_manager.c and the magnitude
    that it gives an acceleration sample. */
module SensorMath {
  import opened SmartTag
  import Modular

  function Square(x: nat): nat {
    x * x
  }

  ghost predicate IsFloorSqrt(r: nat, v: nat) {
    Square(r) <= v < Square(r + 1)
  }

  lemma SquareMonotone(a: nat, b: nat)
    ensures a <= b ==> Square(a) <= Square(b)
  {
  }

  lemma SquareNext(r: nat)
    ensures Square(r + 1) == Square(r) + 2 * r + 1
  {
  }

  lemma SquareDouble(r: nat)
    ensures Square(2 * r) == 4 * Square(r)
    ensures Square(2 * r + 1) == 4 * Square(r) + 4 * r + 1
    ensures Square(2 * r + 2) == 4 * Square(r + 1)
  {
  }

  lemma FloorSqrtUnique(a: nat, b: nat, v: nat)
    requires IsFloorSqrt(a, v) && IsFloorSqrt(b, v)
    ensures a == b
  {
    hide Square;
    SquareMonotone(a + 1, b);
    SquareMonotone(b + 1, a);
  }

  /** The root r of all but the last two bits of v, with one more bit. */
  function NextRoot(r: nat, v: nat): nat {
    if Square(2 * r + 1) <= v then 2 * r + 1 else 2 * r
  }

  /** The integer square root, two bits of the value at a time. */
  function FloorSqrt(v: nat): nat {
    if v == 0 then 0 else NextRoot(FloorSqrt(v / 4), v)
  }

  lemma {:induction false} FloorSqrtCorrect(v: nat)
    ensures IsFloorSqrt(FloorSqrt(v), v)
  {
    hide IsFloorSqrt, NextRoot;
    if v > 0 {
      FloorSqrtCorrect(v / 4);
      FloorSqrtStep(FloorSqrt(v / 4), v / 4, v % 4, FloorSqrt(v));
      assert 4 * (v / 4) + v % 4 == v;
    } else {
      RootOfZero();
    }
  }

  lemma RootOfZero()
    ensures IsFloorSqrt(FloorSqrt(0), 0)
  {
  }

  lemma FloorSqrtStep(r: nat, top: nat, bits: nat, next: nat)
    requires IsFloorSqrt(r, top) && bits < 4
    requires next == NextRoot(r, 4 * top + bits)
    ensures IsFloorSqrt(next, 4 * top + bits)
  {
    hide Square;
    SquareDouble(r);
  }

  /** The two next bits of the value join the remainder, and the root gains a bit. */
  lemma RootStep(r: nat, top: nat, bits: nat)
    requires IsFloorSqrt(r, top) && bits < 4
    ensures var rest := 4 * (top - Square(r)) + bits;
      if 4 * r < rest then
        IsFloorSqrt(2 * r + 1, 4 * top + bits) && rest - (4 * r + 1) == 4 * top + bits - Square(2 * r + 1)
      else
        IsFloorSqrt(2 * r, 4 * top + bits) && rest == 4 * top + bits - Square(2 * r)
  {
    hide Square;
    SquareDouble(r);
  }

  /** Four to the power n: what is left of the value after 16 - n steps is below it. */
  function Pow4(n: nat): (p: nat)
    ensures p >= 1
  {
    if n == 0 then 1 else 4 * Pow4(n - 1)
  }

  /** The top two bits of value, a multiple low * up of what is still to come. */
  lemma TopBits(value: nat, low: nat, scale: nat, up: nat)
    requires scale >= 1 && low < 4 * scale && 4 * scale * up == UINT32_LIMIT && value == low * up
    ensures value / 0x4000_0000 == low / scale < 4
    ensures (value * 4) % UINT32_LIMIT == (low % scale) * (4 * up)
  {
    var bits, rest, part := SplitTop(low, scale, up);
    TopOfSum(value, bits, part);
  }

  lemma TopOfSum(value: nat, bits: nat, part: nat)
    requires value == bits * 0x4000_0000 + part && bits < 4 && part < 0x4000_0000
    ensures value / 0x4000_0000 == bits && (value * 4) % UINT32_LIMIT == 4 * part
  {
  }

  /** The same product, split at the top two bits. */
  lemma SplitTop(low: nat, scale: nat, up: nat) returns (bits: nat, rest: nat, part: nat)
    requires scale >= 1 && low < 4 * scale && 4 * scale * up == UINT32_LIMIT
    ensures bits == low / scale < 4 && rest == low % scale
    ensures low * up == bits * 0x4000_0000 + part && part < 0x4000_0000
    ensures rest * (4 * up) == 4 * part
  {
    bits, rest := low / scale, low % scale;
    part := rest * up;
    Modular.Decompose(low, scale);
    Modular.ProductGap(scale, bits - 3);
    Quarter(scale, up);
    Distribute(bits, scale, rest, up);
    BelowUnit(rest, scale, up);
    FourTimes(rest, up);
  }

  lemma Quarter(scale: nat, up: nat)
    requires 4 * scale * up == UINT32_LIMIT
    ensures scale * up == 0x4000_0000
  {
    assert 4 * scale * up == 4 * (scale * up);
  }

  lemma FourTimes(rest: nat, up: nat)
    ensures rest * (4 * up) == 4 * (rest * up)
  {
  }

  lemma Distribute(bits: nat, scale: nat, rest: nat, up: nat)
    ensures (bits * scale + rest) * up == bits * (scale * up) + rest * up
  {
  }

  lemma ProductMonotone(a: nat, b: nat, k: nat)
    ensures a <= b ==> a * k <= b * k
  {
  }

  lemma BelowUnit(rest: nat, scale: nat, up: nat)
    requires rest < scale && scale * up > 0
    ensures rest * up < scale * up
  {
    ProductMonotone(rest + 1, scale, up);
    assert (rest + 1) * up == rest * up + up;
  }

  lemma RootBound(r: nat, v: nat)
    requires Square(r) <= v < UINT32_LIMIT
    ensures r <= UINT16_MAX
  {
    SquareMonotone(0x1_0000, r);
    assert Square(0x1_0000) == UINT32_LIMIT;
  }

  const STEPS: nat := 16

  lemma AllSteps()
    ensures Pow4(STEPS) == UINT32_LIMIT
  {
    assert Pow4(4) == 256;
    assert Pow4(8) == 65536;
    assert Pow4(12) == 16777216;
    assert Pow4(16) == UINT32_LIMIT;
  }

  /** Multiplication by name, so that the loop's proof need not look into it. */
  ghost function Times(a: nat, b: nat): nat {
    a * b
  }

  /** `root` is twice the root of `top`, and `rest` what its square leaves. */
  ghost predicate RootPart(rest: nat, root: nat, top: nat) {
    root == 2 * FloorSqrt(top) && rest + Square(FloorSqrt(top)) == top
  }

  /** With n steps left, `top` is the leading part of the input and `value` the
      other part, shifted to the top of the word. */
  ghost predicate ValuePart(input: nat, n: nat, value: nat, top: nat, low: nat, up: nat) {
    && input < UINT32_LIMIT
    && low < Pow4(n) && input == Times(top, Pow4(n)) + low
    && Times(Pow4(n), up) == UINT32_LIMIT && value == Times(low, up)
  }

  lemma InputStep(input: nat, top: nat, low: nat, scale: nat)
    requires scale >= 1 && input == top * (4 * scale) + low
    ensures input == (4 * top + low / scale) * scale + low % scale && top <= input
  {
    assert low == low / scale * scale + low % scale;
    assert (4 * top + low / scale) * scale == top * (4 * scale) + low / scale * scale;
    assert top * (4 * scale) >= top;
  }

  lemma ValueStep(input: nat, n: nat, value: nat, top: nat, low: nat, up: nat) returns (low': nat)
    requires n > 0 && ValuePart(input, n, value, top, low, up)
    ensures value / 0x4000_0000 < 4 && top < UINT32_LIMIT
    ensures ValuePart(input, n - 1, (value * 4) % UINT32_LIMIT, 4 * top + value / 0x4000_0000, low', 4 * up)
  {
    var scale := Pow4(n - 1);
    assert Pow4(n) == 4 * scale;
    TopBits(value, low, scale, up);
    InputStep(input, top, low, scale);
    assert scale * (4 * up) == 4 * scale * up;
    low' := low % scale;
  }

  /** No shift loses a bit, and the step keeps root and rest what they should be. */
  lemma RootPartStep(rest: nat, root: nat, top: nat, bits: nat)
    requires RootPart(rest, root, top) && top < UINT32_LIMIT && bits < 4
    ensures root * 2 < UINT32_LIMIT && rest * 4 + bits < UINT32_LIMIT
    ensures if root * 2 < rest * 4 + bits then RootPart(rest * 4 + bits - (root * 2 + 1), root * 2 + 2, 4 * top + bits)
            else RootPart(rest * 4 + bits, root * 2, 4 * top + bits)
  {
    var r, next := FloorSqrt(top), 4 * top + bits;
    FloorSqrtCorrect(top);
    FloorSqrtCorrect(next);
    hide FloorSqrt, Square;
    RootBound(r, top);
    SquareNext(r);
    RootStep(r, top, bits);
    FloorSqrtUnique(if root * 2 < rest * 4 + bits then 2 * r + 1 else 2 * r, FloorSqrt(next), next);
  }

  lemma NoWrap(a: nat)
    requires a < UINT32_LIMIT
    ensures a % UINT32_LIMIT == a
  {
  }

  /** Sixteen steps give the exact integer square root of any 32-bit value, and
      no shift loses a bit of the remainder or of the root. */
  method Isqrt32(input: nat) returns (result: nat)
    requires input < UINT32_LIMIT
    ensures result == FloorSqrt(input) && result <= UINT16_MAX
  {
    hide *;
    var value: nat, rest: nat, root: nat := input, 0, 0;
    ghost var top: nat, low: nat, up: nat, left: nat := 0, input, 1, STEPS;
    Start(input);
    for i := 0 to STEPS
      invariant left == STEPS - i && RootPart(rest, root, top) && ValuePart(input, left, value, top, low, up)
    {
      var bits := value / 0x4000_0000;
      low := ValueStep(input, left, value, top, low, up);
      RootPartStep(rest, root, top, bits);
      top, up, left := 4 * top + bits, 4 * up, left - 1;
      NoWrap(root * 2);
      NoWrap(rest * 4);
      root := (root * 2) % UINT32_LIMIT;
      rest := (rest * 4) % UINT32_LIMIT + bits;
      value := (value * 4) % UINT32_LIMIT;
      if root < rest {
        rest := rest - (root + 1);
        root := root + 2;
      }
    }
    Finish(input, left, value, rest, root, top, low, up);
    return root / 2;
  }

  lemma TimesUnits(a: nat)
    ensures Times(0, a) == 0 && Times(a, 1) == a
  {
  }

  lemma Start(input: nat)
    requires input < UINT32_LIMIT
    ensures RootPart(0, 0, 0) && ValuePart(input, STEPS, input, 0, input, 1)
  {
    hide Pow4, Times;
    AllSteps();
    TimesUnits(0);
    TimesUnits(input);
    TimesUnits(Pow4(STEPS));
  }

  lemma Finish(input: nat, left: nat, value: nat, rest: nat, root: nat, top: nat, low: nat, up: nat)
    requires RootPart(rest, root, top) && ValuePart(input, left, value, top, low, up) && left == 0
    ensures root / 2 == FloorSqrt(input) <= UINT16_MAX
  {
    assert top == input;
    FloorSqrtCorrect(top);
    RootBound(FloorSqrt(top), top);
  }

  // ---- Magnitude ----

  function SumOfSquares(x: int, y: int, z: int): nat {
    SquareIsNat(x);
    SquareIsNat(y);
    SquareIsNat(z);
    x * x + y * y + z * z
  }

  function SquareSum(s: Sample): nat {
    SumOfSquares(s.accelX, s.accelY, s.accelZ)
  }

  lemma SquareIsNat(x: int)
    ensures x * x >= 0 && x * x == Abs(x) * Abs(x)
  {
  }

  /** The magnitude that goes with the axes of a sample. */
  ghost predicate HasMagnitude(s: Sample) {
    s.magnitude == FloorSqrt(SquareSum(s))
  }

  lemma AxisBound(x: int, limit: nat)
    requires Abs(x) <= limit
    ensures x * x <= limit * limit
  {
    SquareIsNat(x);
    assert Abs(x) * Abs(x) <= limit * limit;
  }

  /** The integer part of sensor_board_apply_accel(): writes the magnitude of the
      axes into the sample. The sum is an int32_t, so it must fit one. */
  method ApplyMagnitude(s: Sample) returns (s': Sample)
    requires SquareSum(s) < 0x8000_0000
    ensures s' == s.(magnitude := s'.magnitude, valid := s.valid + {Accel})
    ensures HasMagnitude(s') && s'.magnitude <= UINT16_MAX
  {
    hide FloorSqrt, SquareSum;
    var root := Isqrt32(SquareSum(s));
    s' := s.(magnitude := if root < UINT16_MAX then root else UINT16_MAX, valid := s.valid + {Accel});
    SameAxes(s, s');
  }

  lemma SameAxes(s: Sample, s': Sample)
    requires s.accelX == s'.accelX && s.accelY == s'.accelY && s.accelZ == s'.accelZ
    ensures SquareSum(s) == SquareSum(s')
  {
    hide SumOfSquares;
  }

  /** No axis exceeds the magnitude. */
  lemma MagnitudeBoundsAxes(s: Sample)
    requires HasMagnitude(s)
    ensures Abs(s.accelX) <= s.magnitude && Abs(s.accelY) <= s.magnitude && Abs(s.accelZ) <= s.magnitude
  {
    AxisSquares(s);
    hide FloorSqrt, SquareSum, IsFloorSqrt, Square;
    FloorSqrtCorrect(SquareSum(s));
    AxisBelowRoot(s.accelX, s.magnitude, SquareSum(s));
    AxisBelowRoot(s.accelY, s.magnitude, SquareSum(s));
    AxisBelowRoot(s.accelZ, s.magnitude, SquareSum(s));
  }

  lemma AxisSquares(s: Sample)
    ensures Square(Abs(s.accelX)) <= SquareSum(s)
    ensures Square(Abs(s.accelY)) <= SquareSum(s)
    ensures Square(Abs(s.accelZ)) <= SquareSum(s)
  {
    SquareIsNat(s.accelX);
    SquareIsNat(s.accelY);
    SquareIsNat(s.accelZ);
  }

  lemma AxisBelowRoot(x: int, r: nat, sum: nat)
    requires IsFloorSqrt(r, sum) && Square(Abs(x)) <= sum
    ensures Abs(x) <= r
  {
    hide Square;
    SquareMonotone(r + 1, Abs(x));
  }

  /** Axes of at most 26754 mg, far beyond what the sensors measure, always fit. */
  lemma SumFits(s: Sample)
    requires Abs(s.accelX) <= 26754 && Abs(s.accelY) <= 26754 && Abs(s.accelZ) <= 26754
    ensures SquareSum(s) < 0x8000_0000
  {
    AxisBound(s.accelX, 26754);
    AxisBound(s.accelY, 26754);
    AxisBound(s.accelZ, 26754);
  }

  /** A reading along one axis only is its own magnitude. */
  lemma MagnitudeOfOneAxis(s: Sample)
    requires s.accelX >= 0 && s.accelY == 0 && s.accelZ == 0 && s.magnitude == s.accelX
    ensures HasMagnitude(s)
  {
    var sum := SquareSum(s);
    assert sum == Square(s.accelX);
    hide SquareSum, FloorSqrt;
    FloorSqrtCorrect(sum);
    SquareNext(s.accelX);
    FloorSqrtUnique(s.accelX, FloorSqrt(sum), sum);
  }
}
