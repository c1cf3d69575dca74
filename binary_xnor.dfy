/**
 * The XNOR demonstration program: `xnor` and the 32-digit binary rendering of its result.
 *
 * `xnor` is documented as a bitwise XNOR, but it returns the scalar comparison `a == b`
 * (1 or 0). `Xnor` follows that body; `BitwiseXnor` is the per-bit operation the
 * comment describes, with its per-bit property proved.
 */
module BinaryXnor {
  import opened Ints
  import Decimal

  // ---------------------------------------------------------------------------
  // xnor as written

  /** C's `==` yields the `int` 1 or 0. */
  function BoolToInt(b: bool): (r: int32)
    ensures r == 1 <==> b
    ensures r == 0 <==> !b
  {
    if b then 1 else 0
  }

  function Xnor(a: int32, b: int32): (r: int32)
    ensures r == 0 || r == 1
  {
    BoolToInt(a == b)
  }

  lemma XnorIsEquality(a: int32, b: int32)
    ensures Xnor(a, b) == 1 <==> a == b
    ensures Xnor(a, b) == 0 <==> a != b
  {
  }

  lemma XnorCommutative(a: int32, b: int32)
    ensures Xnor(a, b) == Xnor(b, a)
  {
  }

  lemma XnorReflexive(a: int32)
    ensures Xnor(a, a) == 1
  {
  }

  // ---------------------------------------------------------------------------
  // `(result >> i) & 1`

  /**
   * `x >> i`: the integral part of x / 2^i for non-negative x (section 6.5.7 of
   * ISO/IEC 9899:2011); for negative x the arithmetic shift, which rounds down too.
   */
  function ShiftRight(x: int, i: nat): (r: int)
  {
    x / Pow2(i)
  }

  /** `v & 1`: the lowest bit of v in two's complement, which is v mod 2. */
  function LowBit(v: int): (d: int)
    ensures d == 0 || d == 1
  {
    v % 2
  }

  /** Bit i of x, as the rendering loop extracts it. */
  function Bit(x: int, i: nat): (d: int)
    ensures d == 0 || d == 1
  {
    LowBit(ShiftRight(x, i))
  }

  lemma ShiftRightSucc(x: int, i: nat)
    ensures ShiftRight(x, i + 1) == ShiftRight(x, i) / 2
    ensures ShiftRight(x, i + 1) == ShiftRight(x / 2, i)
  {
    DivDiv(x, Pow2(i), 2);
    DivDiv(x, 2, Pow2(i));
  }

  lemma BitSucc(x: int, i: nat)
    ensures Bit(x, i + 1) == Bit(x / 2, i)
  {
    ShiftRightSucc(x, i);
  }

  lemma BitZero(x: int)
    ensures Bit(x, 0) == x % 2
  {
  }

  /** Adding an even number leaves the lowest bit alone. */
  lemma LowBitAddEven(q: int, m: int)
    requires m % 2 == 0
    ensures LowBit(q + m) == LowBit(q)
  {
    assert q + m == 2 * (q / 2 + m / 2) + q % 2;
    DivModUnique(q + m, 2, q / 2 + m / 2, q % 2);
  }

  /** Adding 2^32 changes none of the low 32 bits. */
  lemma BitWrap(x: int, i: nat)
    requires i < 32
    ensures Bit(x + Pow2(32), i) == Bit(x, i)
  {
    var p, m := Pow2(i), Pow2(32 - i);
    Pow2Add(i, 32 - i);
    assert Pow2(32) == p * m;
    DivAddMultiple(x, p, m);
    assert ShiftRight(x + Pow2(32), i) == ShiftRight(x, i) + m;
    LowBitAddEven(ShiftRight(x, i), m);
  }

  // ---------------------------------------------------------------------------
  // The rendering of lines 14-16: one digit per i, from 31 down to 0

  /** `printf("%d", d)` for a bit d. */
  function BitChar(d: int): (c: char)
    requires d == 0 || d == 1
    ensures c == '0' || c == '1'
  {
    if d == 0 then '0' else '1'
  }

  lemma BitCharIsDecimal(d: int)
    requires d == 0 || d == 1
    ensures [BitChar(d)] == Decimal.FormatInt(d)
  {
  }

  /** The digits of bit positions hi-1 down to lo, most significant first. */
  function Window(x: int, lo: nat, hi: nat): (s: string)
    ensures |s| == if lo <= hi then hi - lo else 0
    decreases hi - lo
  {
    if lo >= hi then [] else Window(x, lo + 1, hi) + [BitChar(Bit(x, lo))]
  }

  /** What the loop prints: bits 31 down to 0 of `result`. */
  function BinaryString(x: int): (s: string)
    ensures |s| == 32
  {
    Window(x, 0, 32)
  }

  predicate IsBinary(s: string) {
    forall k :: 0 <= k < |s| ==> s[k] == '0' || s[k] == '1'
  }

  /** Reading a digit string back as an unsigned binary number, most significant digit first. */
  function FromBinary(s: string): (n: int)
    requires IsBinary(s)
    ensures 0 <= n < Pow2(|s|)
  {
    if s == [] then 0
    else 2 * FromBinary(s[..|s| - 1]) + (if s[|s| - 1] == '1' then 1 else 0)
  }

  lemma {:induction false} WindowAt(x: int, lo: nat, hi: nat, k: nat)
    requires lo <= hi && k < hi - lo
    ensures Window(x, lo, hi)[k] == BitChar(Bit(x, hi - 1 - k))
    decreases hi - lo
  {
    if k < hi - lo - 1 {
      WindowAt(x, lo + 1, hi, k);
    }
  }

  /** Character k of the rendering is bit 31 - k, so the string holds only '0' and '1'. */
  lemma BinaryStringAt(x: int, k: nat)
    requires k < 32
    ensures BinaryString(x)[k] == BitChar(Bit(x, 31 - k))
    ensures BinaryString(x)[k] == '0' || BinaryString(x)[k] == '1'
  {
    WindowAt(x, 0, 32, k);
  }

  lemma BinaryStringIsBinary(x: int)
    ensures IsBinary(BinaryString(x))
  {
    forall k | 0 <= k < 32 ensures BinaryString(x)[k] == '0' || BinaryString(x)[k] == '1' {
      BinaryStringAt(x, k);
    }
  }

  lemma {:induction false} WindowValue(x: int, lo: nat, hi: nat)
    requires lo <= hi
    ensures IsBinary(Window(x, lo, hi))
    ensures FromBinary(Window(x, lo, hi)) == ShiftRight(x, lo) % Pow2(hi - lo)
    decreases hi - lo
  {
    if lo < hi {
      var w := Window(x, lo + 1, hi);
      WindowValue(x, lo + 1, hi);
      var s := Window(x, lo, hi);
      assert s == w + [BitChar(Bit(x, lo))];
      assert s[..|s| - 1] == w;
      var y := ShiftRight(x, lo);
      ShiftRightSucc(x, lo);
      ModDouble(y, Pow2(hi - lo - 1));
    }
  }

  /** Reading the 32 digits back gives `result` modulo 2^32. */
  lemma BinaryStringRoundTrip(x: int)
    ensures IsBinary(BinaryString(x))
    ensures FromBinary(BinaryString(x)) == x % Pow2(32)
  {
    WindowValue(x, 0, 32);
  }

  lemma {:induction false} WindowHalve(x: int, lo: nat, hi: nat)
    requires lo <= hi
    ensures Window(x, lo + 1, hi + 1) == Window(x / 2, lo, hi)
    decreases hi - lo
  {
    if lo < hi {
      WindowHalve(x, lo + 1, hi);
      BitSucc(x, lo);
    }
  }

  lemma {:induction false} RenderFromBinary(s: string)
    requires IsBinary(s)
    ensures Window(FromBinary(s), 0, |s|) == s
  {
    if s != [] {
      var init := s[..|s| - 1];
      var x := FromBinary(s);
      RenderFromBinary(init);
      assert x / 2 == FromBinary(init);
      WindowHalve(x, 0, |init|);
      BitZero(x);
      assert s == init + [s[|s| - 1]];
    }
  }

  /** Every 32-digit binary string is the rendering of the number it denotes. */
  lemma DecodeThenRender(s: string)
    requires |s| == 32 && IsBinary(s)
    ensures BinaryString(FromBinary(s)) == s
  {
    RenderFromBinary(s);
  }

  // ---------------------------------------------------------------------------
  // The program

  /** n copies of the character c. */
  function Repeat(c: char, n: nat): (s: string)
    ensures |s| == n && forall k :: 0 <= k < n ==> s[k] == c
  {
    seq(n, _ => c)
  }

  lemma ShiftRightSmall(x: int, j: nat)
    requires (x == 0 || x == 1) && j >= 1
    ensures ShiftRight(x, j) == 0
  {
    assert Pow2(j) == 2 * Pow2(j - 1);
    DivModUnique(x, Pow2(j), 0, x);
  }

  /** A result of 0 or 1 prints as 31 zeros and then that digit. */
  lemma SmallBinaryString(x: int)
    requires x == 0 || x == 1
    ensures BinaryString(x) == Repeat('0', 31) + [BitChar(x)]
  {
    var s, t := BinaryString(x), Repeat('0', 31) + [BitChar(x)];
    forall k | 0 <= k < 32 ensures s[k] == t[k] {
      BinaryStringAt(x, k);
      if k < 31 {
        ShiftRightSmall(x, 31 - k);
      }
    }
  }

  /** The loop of lines 14-16. */
  method RenderBinary(result: int32) returns (digits: string)
    ensures digits == BinaryString(result as int)
    ensures |digits| == 32 && IsBinary(digits)
    ensures FromBinary(digits) == result as int % Pow2(32)
  {
    digits := [];
    var i: int := 31;
    while i >= 0
      invariant -1 <= i <= 31
      invariant digits == Window(result as int, i + 1, 32)
      decreases i + 1
    {
      var bit := LowBit(ShiftRight(result as int, i));
      digits := digits + [BitChar(bit)];
      i := i - 1;
    }
    BinaryStringRoundTrip(result as int);
  }

  /** The first output line, `XNOR of %d and %d is: %d`. */
  function ResultLine(a: int32, b: int32, result: int32): (line: string) {
    "XNOR of " + Decimal.FormatInt(a as int) + " and " + Decimal.FormatInt(b as int)
      + " is: " + Decimal.FormatInt(result as int) + "\n"
  }

  /**
   * `main` with its operands as parameters: the two lines it writes to standard output.
   * The result digit is '1' exactly when the operands are equal, and the binary line is
   * that digit after 31 zeros.
   */
  method Demo(a: int32, b: int32) returns (resultLine: string, binaryLine: string)
    ensures var d := if a == b then '1' else '0';
      && resultLine == "XNOR of " + Decimal.FormatInt(a as int) + " and "
           + Decimal.FormatInt(b as int) + " is: " + [d] + "\n"
      && binaryLine == "Binary representation of result: " + Repeat('0', 31) + [d] + "\n"
  {
    var result := Xnor(a, b);
    ghost var d := if a == b then '1' else '0';
    assert Decimal.FormatInt(result as int) == [d];
    resultLine := ResultLine(a, b, result);
    binaryLine := "Binary representation of result: ";
    var digits := RenderBinary(result);
    SmallBinaryString(result as int);
    assert digits == Repeat('0', 31) + [d];
    binaryLine := binaryLine + digits + "\n";
  }

  /** `main` as shipped, with a = b = 10. */
  method RunProgram() returns (resultLine: string, binaryLine: string)
    ensures resultLine == "XNOR of 10 and 10 is: 1\n"
    ensures binaryLine == "Binary representation of result: 00000000000000000000000000000001\n"
  {
    resultLine, binaryLine := Demo(10, 10);
    assert Decimal.FormatInt(10) == "10";
    assert Repeat('0', 31) + ['1'] == "00000000000000000000000000000001";
  }

  // ---------------------------------------------------------------------------
  // The bitwise XNOR that the comment on xnor describes

  /** The low n bits of the per-bit XNOR of a and b, as an unsigned number. */
  function XnorBits(a: int, b: int, n: nat): (u: int)
    ensures 0 <= u < Pow2(n)
    decreases n
  {
    if n == 0 then 0
    else 2 * XnorBits(a / 2, b / 2, n - 1) + (if a % 2 == b % 2 then 1 else 0)
  }

  /** The 32-bit pattern u read as a two's complement `int`. */
  function ToInt32(u: int): (r: int32)
    requires 0 <= u < TWO_TO_32
    ensures r as int % TWO_TO_32 == u
  {
    if u < 0x8000_0000 then u as int32 else (u - 0x1_0000_0000) as int32
  }

  /** The corrected operation: each bit of the result is 1 exactly where the operands' bits agree. */
  function BitwiseXnor(a: int32, b: int32): (r: int32)
    ensures var x, y, z := r as int, a as int, b as int;
      forall i: nat :: i < 32 ==> (Bit(x, i) == 1 <==> Bit(y, i) == Bit(z, i))
  {
    Pow2Of32();
    var u := XnorBits(a as int, b as int, 32);
    var x, y, z := ToInt32(u) as int, a as int, b as int;
    assert forall i: nat :: i < 32 ==> (Bit(x, i) == 1 <==> Bit(y, i) == Bit(z, i)) by {
      forall i: nat | i < 32 ensures Bit(x, i) == 1 <==> Bit(y, i) == Bit(z, i) {
        ToInt32Bits(u, i);
        XnorBitsAt(a as int, b as int, 32, i);
      }
    }
    ToInt32(u)
  }

  lemma {:induction false} XnorBitsAt(a: int, b: int, n: nat, i: nat)
    requires i < n
    ensures Bit(XnorBits(a, b, n), i) == (if Bit(a, i) == Bit(b, i) then 1 else 0)
    decreases n
  {
    var u := XnorBits(a, b, n);
    var q := XnorBits(a / 2, b / 2, n - 1);
    assert u / 2 == q;
    if i == 0 {
      BitZero(u); BitZero(a); BitZero(b);
    } else {
      XnorBitsAt(a / 2, b / 2, n - 1, i - 1);
      BitSucc(u, i - 1); BitSucc(a, i - 1); BitSucc(b, i - 1);
    }
  }

  lemma ToInt32Bits(u: int, i: nat)
    requires 0 <= u < TWO_TO_32 && i < 32
    ensures Bit(ToInt32(u) as int, i) == Bit(u, i)
  {
    Pow2Of32();
    if u >= 0x8000_0000 {
      BitWrap(u - Pow2(32), i);
    }
  }

  lemma {:induction false} XnorBitsAllOnes(a: int, b: int, n: nat)
    ensures XnorBits(a, b, n) == Pow2(n) - 1 <==> a % Pow2(n) == b % Pow2(n)
    decreases n
  {
    if n > 0 {
      XnorBitsAllOnes(a / 2, b / 2, n - 1);
      ModDouble(a, Pow2(n - 1));
      ModDouble(b, Pow2(n - 1));
    }
  }

  lemma Int32ModInjective(a: int32, b: int32)
    ensures a as int % TWO_TO_32 == b as int % TWO_TO_32 <==> a == b
  {
  }

  /** The result is all ones (-1) exactly when the operands are equal. */
  lemma BitwiseXnorAllOnes(a: int32, b: int32)
    ensures BitwiseXnor(a, b) == -1 <==> a == b
  {
    XnorBitsAllOnes(a as int, b as int, 32);
    Int32ModInjective(a, b);
    Pow2Of32();
  }

  /** The scalar `xnor` reports 1 exactly when the bitwise XNOR is all ones. */
  lemma XnorDetectsAllOnes(a: int32, b: int32)
    ensures Xnor(a, b) == 1 <==> BitwiseXnor(a, b) == -1
  {
    BitwiseXnorAllOnes(a, b);
  }

  /** The shipped inputs already tell the two apart: 1 is printed where -1 was promised. */
  lemma XnorDiffersOnShippedInput()
    ensures Xnor(10, 10) == 1 && BitwiseXnor(10, 10) == -1
  {
    BitwiseXnorAllOnes(10, 10);
  }

  /** 10 (...01010) and 5 (...00101) agree on no low bit and on all bits above bit 3. */
  lemma BitwiseXnorExamples()
    ensures BitwiseXnor(10, 5) == -16
    ensures BitwiseXnor(0, -1) == 0
  {
    Pow2Of32();
    XnorBitsAllOnes(0, 0, 28);
    assert XnorBits(0, 0, 28) == Pow2(28) - 1;
    assert XnorBits(10, 5, 32) == 16 * XnorBits(0, 0, 28);
    Pow2Add(4, 28);
    XnorBitsDisjoint(32);
  }

  /** Bit i of -2^n is 0 below position n and 1 from there on. */
  lemma {:induction false} BitNegPow2(n: nat, i: nat)
    ensures Bit(-(Pow2(n) as int), i) == if i >= n then 1 else 0
    decreases i
  {
    var x: int := -(Pow2(n) as int);
    if i == 0 {
      BitZero(x);
      if n > 0 {
        assert x == 2 * -(Pow2(n - 1) as int);
      }
    } else {
      BitSucc(x, i - 1);
      if n > 0 {
        assert x / 2 == -(Pow2(n - 1) as int);
        BitNegPow2(n - 1, i - 1);
      } else {
        assert x / 2 == -1;
        BitNegPow2(0, i - 1);
      }
    }
  }

  /** Character k of the rendering of -2^n. */
  lemma BinaryStringNegPow2At(x: int, n: nat, k: nat)
    requires n <= 32 && k < 32 && x == -(Pow2(n) as int)
    ensures BinaryString(x)[k] == if k < 32 - n then '1' else '0'
  {
    BinaryStringAt(x, k);
    BitNegPow2(n, 31 - k);
  }

  lemma RepeatsAt(c: char, m: nat, d: char, n: nat, k: nat)
    requires k < m + n
    ensures (Repeat(c, m) + Repeat(d, n))[k] == if k < m then c else d
  {
    if k >= m {
      assert (Repeat(c, m) + Repeat(d, n))[k] == Repeat(d, n)[k - m];
    }
  }

  /** -2^n renders as 32 - n ones followed by n zeros. */
  lemma BinaryStringNegPow2(x: int, n: nat)
    requires n <= 32 && x == -(Pow2(n) as int)
    ensures BinaryString(x) == Repeat('1', 32 - n) + Repeat('0', n)
  {
    var s, t := BinaryString(x), Repeat('1', 32 - n) + Repeat('0', n);
    forall k | 0 <= k < 32 ensures s[k] == t[k] {
      BinaryStringNegPow2At(x, n, k);
      RepeatsAt('1', 32 - n, '0', n, k);
    }
    assert |s| == |t|;
  }

  /** The corrected results as the rendering loop would print them. */
  lemma BitwiseXnorRenderings()
    ensures BinaryString(BitwiseXnor(10, 5) as int) == Repeat('1', 28) + "0000"
    ensures BinaryString(BitwiseXnor(10, 10) as int) == Repeat('1', 32)
  {
    BitwiseXnorExamples();
    XnorDiffersOnShippedInput();
    assert Pow2(4) == 16;
    BinaryStringNegPow2(-16, 4);
    assert Repeat('0', 4) == "0000";
    BinaryStringNegPow2(-1, 0);
    assert Repeat('1', 32) + Repeat('0', 0) == Repeat('1', 32);
  }

  lemma {:induction false} XnorBitsDisjoint(n: nat)
    ensures XnorBits(0, -1, n) == 0
  {
    if n > 0 {
      XnorBitsDisjoint(n - 1);
    }
  }
}
