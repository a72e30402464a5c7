/** CUBIC's integer arithmetic: the last-set-bit functions, the table-driven cube root with one
    Newton step, and the TCP-friendliness loop.  Fixed-width results are reduced explicitly. */
module Cubic {
  import opened Bytes

  function Wrap32(x: nat): (r: nat) {
    x % TWO32
  }

  lemma {:induction false} PowAdd(m: nat, n: nat)
    ensures Pow2(m + n) == Pow2(m) * Pow2(n)
  {
    if m > 0 {
      PowAdd(m - 1, n);
    }
  }

  /** n is the number of bits in x. */
  ghost predicate BitLength(x: nat, n: nat) {
    if x == 0 then n == 0 else n >= 1 && Pow2(n - 1) <= x < Pow2(n)
  }

  lemma {:induction false} PowGrows(m: nat, n: nat)
    requires m <= n
    ensures Pow2(m) <= Pow2(n)
    decreases n
  {
    if m < n {
      PowGrows(m, n - 1);
    }
  }

  lemma BitLengthUnique(x: nat, m: nat, n: nat)
    requires BitLength(x, m) && BitLength(x, n)
    ensures m == n
  {
    if x > 0 {
      if m < n {
        PowGrows(m, n - 1);
      } else if n < m {
        PowGrows(n, m - 1);
      }
    }
  }

  /** One halving step of fls: a clear upper part is shifted away. */
  lemma Shifted(x0: nat, x: nat, r: nat, k: nat)
    requires k <= r <= 32 && x == x0 * Pow2(32 - r) && x < Pow2(32 - k)
    ensures x * Pow2(k) == x0 * Pow2(32 - (r - k)) && x * Pow2(k) < Pow2(32)
  {
    hide Pow2;
    PowAdd(32 - r, k);
    PowAdd(32 - k, k);
    Associate(x0, Pow2(32 - r), Pow2(k));
    Scale(x, Pow2(32 - k), Pow2(k));
  }

  lemma Associate(a: nat, b: nat, c: nat)
    ensures a * b * c == a * (b * c)
  {
  }

  lemma Scale(a: nat, b: nat, p: nat)
    requires p > 0
    ensures a < b <==> a * p < b * p
  {
    if a >= b {
      assert a * p - b * p == (a - b) * p;
    } else {
      assert b * p - a * p == (b - a) * p;
    }
  }

  lemma Powers()
    ensures Pow2(1) == 2 && Pow2(2) == 4 && Pow2(4) == 16 && Pow2(8) == 256 && Pow2(16) == 65536
    ensures Pow2(24) == 0x100_0000 && Pow2(28) == 0x1000_0000 && Pow2(30) == 0x4000_0000
    ensures Pow2(31) == 0x8000_0000 && Pow2(32) == TWO32
  {
    PowAdd(1, 1);
    PowAdd(2, 2);
    PowAdd(4, 4);
    PowAdd(8, 8);
    PowAdd(16, 8);
    PowAdd(24, 4);
    PowAdd(28, 2);
    PowAdd(30, 1);
    PowAdd(31, 1);
  }

  method Fls(word: nat) returns (r: nat)
    requires word < TWO32
    ensures BitLength(word, r) && r <= 32
  {
    Powers();
    var x := word;
    r := 32;
    if x == 0 {
      return 0;
    }
    assert x == word * Pow2(32 - r);
    if x < 0x1_0000 {
      Shifted(word, x, r, 16);
      x := x * 65536;
      r := r - 16;
    }
    if x < 0x100_0000 {
      Shifted(word, x, r, 8);
      x := x * 256;
      r := r - 8;
    }
    if x < 0x1000_0000 {
      Shifted(word, x, r, 4);
      x := x * 16;
      r := r - 4;
    }
    if x < 0x4000_0000 {
      Shifted(word, x, r, 2);
      x := x * 4;
      r := r - 2;
    }
    if x < 0x8000_0000 {
      Shifted(word, x, r, 1);
      x := x * 2;
      r := r - 1;
    }
    LastBit(word, x, r);
  }

  lemma LastBit(word: nat, x: nat, r: nat)
    requires 1 <= r <= 32 && x == word * Pow2(32 - r) && Pow2(31) <= x < Pow2(32)
    ensures BitLength(word, r)
  {
    hide Pow2;
    PowAdd(r - 1, 32 - r);
    PowAdd(r, 32 - r);
    Scale(word, Pow2(r - 1), Pow2(32 - r));
    Scale(word, Pow2(r), Pow2(32 - r));
  }

  method Fls64(x: nat) returns (r: nat)
    requires x < TWO64
    ensures BitLength(x, r) && r <= 64
  {
    var h := x / TWO32;
    if h != 0 {
      r := Fls(h);
      UpperHalf(x, r);
      r := r + 32;
    } else {
      r := Fls(x % TWO32);
    }
  }

  lemma UpperHalf(x: nat, r: nat)
    requires x >= TWO32 && BitLength(x / TWO32, r)
    ensures BitLength(x, r + 32)
  {
    Powers();
    PowAdd(r - 1, 32);
    PowAdd(r, 32);
  }

  // ------------------------------------------------------------ cube root

  /** The table of leading digits of cube roots. */
  function Leading(i: nat): (v: nat)
    requires i < 64
    ensures v <= 254
  {
    match i
    case 0 => 0 case 1 => 54 case 2 => 54 case 3 => 54 case 4 => 118 case 5 => 118 case 6 => 118 case 7 => 118
    case 8 => 123 case 9 => 129 case 10 => 134 case 11 => 138 case 12 => 143 case 13 => 147 case 14 => 151 case 15 => 156
    case 16 => 157 case 17 => 161 case 18 => 164 case 19 => 168 case 20 => 170 case 21 => 173 case 22 => 176 case 23 => 179
    case 24 => 181 case 25 => 185 case 26 => 187 case 27 => 190 case 28 => 192 case 29 => 194 case 30 => 197 case 31 => 199
    case 32 => 200 case 33 => 202 case 34 => 204 case 35 => 206 case 36 => 209 case 37 => 211 case 38 => 213 case 39 => 215
    case 40 => 217 case 41 => 219 case 42 => 221 case 43 => 222 case 44 => 224 case 45 => 225 case 46 => 227 case 47 => 229
    case 48 => 231 case 49 => 232 case 50 => 234 case 51 => 236 case 52 => 237 case 53 => 239 case 54 => 240 case 55 => 242
    case 56 => 244 case 57 => 245 case 58 => 246 case 59 => 248 case 60 => 250 case 61 => 251 case 62 => 252 case 63 => 254
  }

  function Cube(x: nat): (r: nat) {
    x * x * x
  }

  /** x and the cube root of a are within a factor of the cube root of two of each other. */
  predicate Near(x: nat, a: nat) {
    Cube(x) <= 2 * a && a <= 2 * Cube(x)
  }

  /** The Newton step from x. */
  function Newton(x: nat, a: nat): nat
    requires x >= 2
  {
    (2 * x + a / (x * (x - 1))) * 341 / 1024
  }

  /** The table holds 64 times the cube root of its index, within a sixth and a third of a
      percent. */
  lemma LeadingCubes(s: nat)
    requires 8 <= s < 64
    ensures var c := Leading(s) + 10;
            133 <= c <= 264 && 6 * (c * c * c) <= 7 * s * 0x4_0000 && 300 * (s + 1) * 0x4_0000 <= 301 * (c * c * c)
  {
  }

  /** What the table guarantees of the first guess x. */
  predicate Guess(x: nat, a: nat) {
    x >= 4 && a >= 64 && 6 * Cube(x) <= 7 * a && 300 * a <= 301 * Cube(x + 1)
  }

  lemma CubeOrder(x: nat, y: nat)
    ensures x <= y ==> Cube(x) <= Cube(y)
  {
    if x <= y {
      assert x * x <= y * y;
      assert x * x * x <= y * y * y;
    }
  }

  lemma CubeScale(k: nat, x: nat)
    ensures Cube(k * x) == Cube(k) * Cube(x)
  {
  }

  lemma CubeValues()
    ensures Cube(4) == 64 && Cube(5) == 125 && Cube(6) == 216 && Cube(7) == 343 && Cube(8) == 512
    ensures Cube(9) == 729 && Cube(10) == 1000 && Cube(11) == 1331 && Cube(12) == 1728 && Cube(13) == 2197
    ensures Cube(14) == 2744 && Cube(15) == 3375 && Cube(16) == 4096
  {
  }

  lemma SmallGuess(x: nat, a: nat)
    requires Guess(x, a) && x < 16
    ensures Near(Newton(x, a), a)
  {
    if x < 8 {
      SmallGuess4(x, a);
    } else if x < 12 {
      SmallGuess8(x, a);
    } else {
      SmallGuess12(x, a);
    }
  }

  lemma SmallGuess4(x: nat, a: nat)
    requires Guess(x, a) && x < 8
    ensures Near(Newton(x, a), a)
  {
    CubeValues();
    hide Cube, Newton;
    if
    case x == 4 => var _ := QuotientCase(x, 12, a);
    case x == 5 => var _ := QuotientCase(x, 20, a);
    case x == 6 => var _ := QuotientCase(x, 30, a);
    case x == 7 => var _ := QuotientCase(x, 42, a);
  }

  lemma SmallGuess8(x: nat, a: nat)
    requires Guess(x, a) && 8 <= x < 12
    ensures Near(Newton(x, a), a)
  {
    CubeValues();
    hide Cube, Newton;
    if
    case x == 8 => var _ := QuotientCase(x, 56, a);
    case x == 9 => var _ := QuotientCase(x, 72, a);
    case x == 10 => var _ := QuotientCase(x, 90, a);
    case x == 11 => var _ := QuotientCase(x, 110, a);
  }

  lemma SmallGuess12(x: nat, a: nat)
    requires Guess(x, a) && 12 <= x < 16
    ensures Near(Newton(x, a), a)
  {
    CubeValues();
    hide Cube, Newton;
    if
    case x == 12 => var _ := QuotientCase(x, 132, a);
    case x == 13 => var _ := QuotientCase(x, 156, a);
    case x == 14 => var _ := QuotientCase(x, 182, a);
    case x == 15 => var _ := QuotientCase(x, 210, a);
  }

  /** The quotient in a Newton step, and what the step makes of it. */
  lemma QuotientCase(x: nat, d: nat, a: nat) returns (q: nat)
    requires x >= 2 && d == x * (x - 1)
    ensures q * d <= a < q * d + d
    ensures 1024 * Newton(x, a) <= (2 * x + q) * 341 < 1024 * Newton(x, a) + 1024
  {
    q := a / d;
  }

  lemma Times(a: nat, b: nat, p: nat)
    ensures a <= b ==> a * p <= b * p
  {
  }

  lemma Expanded(x: nat)
    requires x >= 16
    ensures x * (x * (x - 1)) == Cube(x) - x * x
    ensures Cube(x + 1) == Cube(x) + 3 * (x * x) + 3 * x + 1
    ensures Cube(x) >= 16 * (x * x) && x * x >= 16 * x
  {
    assert x * (x * x) >= 16 * (x * x);
  }

  lemma QuotientAbove(x: nat, d: nat, q: nat, a: nat)
    requires Guess(x, a) && x >= 16 && d == x * (x - 1) && a < q * d + d
    ensures 7 * (q + 1) > 6 * x
  {
    Times(7 * (q + 1), 6 * x, d);
    Expanded(x);
    assert 7 * (q + 1) * d == 7 * (q * d + d);
    assert 6 * x * d == 6 * (x * d);
  }

  lemma QuotientBelow(x: nat, d: nat, q: nat, a: nat)
    requires Guess(x, a) && x >= 16 && d == x * (x - 1) && q * d <= a
    ensures 10 * q <= 13 * x
  {
    Times(13 * x, 10 * q, d);
    Expanded(x);
    hide Cube;
    assert 10 * q * d == 10 * (q * d);
    assert 13 * x * d == 13 * (x * d);
  }

  lemma NewtonBounds(x: nat, d: nat, a: nat)
    requires Guess(x, a) && x >= 16 && d == x * (x - 1)
    ensures 86 * x <= 100 * Newton(x, a) && 10 * Newton(x, a) <= 11 * x
  {
    var q := QuotientCase(x, d, a);
    hide Newton, Guess, Cube;
    QuotientAbove(x, d, q, a);
    QuotientBelow(x, d, q, a);
    StepBounds(x, q, Newton(x, a));
  }

  lemma StepBounds(x: nat, q: nat, r: nat)
    requires x >= 16 && 7 * (q + 1) > 6 * x && 10 * q <= 13 * x
    requires 1024 * r <= (2 * x + q) * 341 < 1024 * r + 1024
    ensures 86 * x <= 100 * r && 10 * r <= 11 * x
  {
  }

  /** One Newton step brings a good guess within the bounds. */
  lemma LargeGuess(x: nat, a: nat)
    requires Guess(x, a) && x >= 16
    ensures Near(Newton(x, a), a)
  {
    hide *;
    NewtonBounds(x, x * (x - 1), a);
    var r := Newton(x, a);
    CubeRatio(10, r, 11, x);
    CubeRatio(86, x, 100, r);
    CubeRatio(16, x + 1, 17, x);
    CubeConstants();
    hide *;
    GuessBounds(x, a);
    BoundsNear(Cube(r), Cube(x), Cube(x + 1), a);
    NearCubes(r, a);
  }

  lemma CubeRatio(j: nat, x: nat, k: nat, y: nat)
    requires j * x <= k * y
    ensures Cube(j) * Cube(x) <= Cube(k) * Cube(y)
  {
    CubeOrder(j * x, k * y);
    CubeScale(j, x);
    CubeScale(k, y);
    hide Cube;
  }

  /** From the cubes of the result, the guess and its successor to the bounds. */
  lemma BoundsNear(result: nat, guess: nat, next: nat, a: nat)
    requires 1000 * result <= 1331 * guess && 636056 * guess <= 1000000 * result
    requires 4096 * next <= 4913 * guess && 6 * guess <= 7 * a && 300 * a <= 301 * next
    ensures result <= 2 * a && a <= 2 * result
  {
  }

  lemma GuessBounds(x: nat, a: nat)
    requires Guess(x, a)
    ensures 6 * Cube(x) <= 7 * a && 300 * a <= 301 * Cube(x + 1)
  {
  }

  lemma NearCubes(r: nat, a: nat)
    requires Cube(r) <= 2 * a && a <= 2 * Cube(r)
    ensures Near(r, a)
  {
  }

  lemma CubeConstants()
    ensures Cube(10) == 1000 && Cube(11) == 1331 && Cube(86) == 636056 && Cube(100) == 1000000
    ensures Cube(16) == 4096 && Cube(17) == 4913
  {
  }

  lemma PowCubed(b: nat)
    ensures Cube(Pow2(b)) == Pow2(3 * b)
  {
    PowAdd(b, b);
    PowAdd(2 * b, b);
  }

  /** The shift leaves six leading bits. */
  lemma SixBits(a: nat, n: nat, b: nat)
    requires 7 <= n <= 64 && BitLength(a, n) && b == n * 84 / 256 - 1
    ensures 1 <= b <= 20 && 8 <= a / Pow2(3 * b) < 64
  {
    var p := Pow2(3 * b);
    assert 3 * b + 4 <= n <= 3 * b + 6;
    PowAdd(3 * b, 3);
    PowAdd(3 * b, 6);
    PowGrows(3 * b + 3, n - 1);
    PowGrows(n, 3 * b + 6);
    assert Pow2(3) == 8 && Pow2(6) == 64;
    hide Pow2;
    DivideBetween(a, p);
  }

  lemma DivideBetween(a: nat, p: nat)
    requires p > 0 && p * 8 <= a < p * 64
    ensures 8 <= a / p < 64
  {
  }

  lemma Associate3(k: nat, s: nat, p: nat)
    ensures k * s * p == k * (s * p) && k * (s + 1) * p == k * (s * p + p)
  {
  }

  lemma ScaledLeading(s: nat, c: nat, m: nat)
    requires 8 <= s < 64 && c == Leading(s) + 10
    ensures 6 * Cube(c * m) <= 7 * 0x4_0000 * (s * Cube(m))
    ensures 300 * 0x4_0000 * (s * Cube(m) + Cube(m)) <= 301 * Cube(c * m)
  {
    LeadingCubes(s);
    Times(6 * Cube(c), 7 * 0x4_0000 * s, Cube(m));
    Times(300 * 0x4_0000 * (s + 1), 301 * Cube(c), Cube(m));
    CubeScale(c, m);
    hide Cube, Leading;
    Associate3(7 * 0x4_0000, s, Cube(m));
    Associate3(300 * 0x4_0000, s, Cube(m));
    Associate3(6, Cube(c), Cube(m));
    Associate3(301, Cube(c), Cube(m));
  }

  /** The table lookup, scaled, is a good guess. */
  lemma GuessGood(a: nat, m: nat, s: nat, x: nat)
    requires a >= 64 && m >= 2 && 8 <= s < 64
    requires s * Cube(m) <= a < s * Cube(m) + Cube(m)
    requires 64 * x <= (Leading(s) + 10) * m < 64 * x + 64
    ensures Guess(x, a)
  {
    var c := Leading(s) + 10;
    ScaledLeading(s, c, m);
    LeadingCubes(s);
    Times(133, c, m);
    hide Cube, Leading;
    GuessFrom(a, c * m, s * Cube(m), Cube(m), x);
  }

  lemma GuessFrom(a: nat, n: nat, low: nat, width: nat, x: nat)
    requires a >= 64 && n >= 266 && low <= a < low + width
    requires 6 * Cube(n) <= 7 * 0x4_0000 * low && 300 * 0x4_0000 * (low + width) <= 301 * Cube(n)
    requires 64 * x <= n < 64 * x + 64
    ensures Guess(x, a)
  {
    assert Cube(64) == 0x4_0000;
    hide Cube;
    CubeOrder(64 * x, n);
    CubeOrder(n, 64 * (x + 1));
    CubeScale(64, x);
    CubeScale(64, x + 1);
  }

  lemma TableRoot(a: nat)
    requires a < 64
    ensures var r := (Leading(a) + 35) / 64; 0 <= r <= 4 && (Near(r, a) <==> a != 3)
  {
    var r := (Leading(a) + 35) / 64;
    assert Cube(0) == 0 && Cube(1) == 1 && Cube(2) == 8 && Cube(3) == 27 && Cube(4) == 64;
    hide Cube;
    assert r <= 4;
  }

  /** Nothing wraps on the way to a result with r^3 <= 2a. */
  lemma NoWrap(x: nat, d: nat, a: nat)
    requires x >= 2 && d == x * (x - 1) && a < TWO64 && Near(Newton(x, a), a)
    ensures d > 0 && (2 * x + a / d) * 341 < TWO32
  {
    var y := (2 * x + a / d) * 341;
    var r := y / 1024;
    assert r == Newton(x, a);
    hide Newton;
    CubeOrder(0x40_0000, r);
    assert Cube(0x40_0000) == 0x4_0000_0000_0000_0000;
    hide Cube;
    assert y < 1024 * r + 1024;
  }

  lemma Unwrapped(x: nat)
    requires x < TWO32
    ensures Wrap32(x) == x
  {
  }

  /** The cube root: within a factor of two in the cube, both ways, for every 64-bit value but
      three.  The table index stays in range, the divisor is not zero, and nothing wraps. */
  method CubicRoot(a: nat) returns (x: nat)
    requires a < TWO64
    ensures x < TWO32
    ensures Cube(x) <= 2 * a && a <= 2 * Cube(x) <==> a != 3
  {
    hide Leading, Cube, Guess, Pow2, BitLength;
    var b := Fls64(a);
    var n := b;
    if b < 7 {
      Below64(a, b);
      TableRoot(a);
      x := (Leading(a) + 35) / 64;
      return;
    }
    AtLeast64(a, b);
    b := b * 84 / 256 - 1;
    SixBits(a, n, b);
    var shift := Wrap32(a / Pow2(b * 3));
    assert shift == a / Pow2(3 * b);
    x := FirstGuess(a, b, shift);
    x := Step(x, a);
  }

  /** The Newton step on fixed-width words. */
  method Step(guess: nat, a: nat) returns (x: nat)
    requires a < TWO64 && Guess(guess, a)
    ensures x < TWO32 && Near(x, a)
  {
    PositiveDivisor(guess, a);
    hide *;
    var d := Divisor(guess);
    var q := a / d;
    StepResult(guess, d, a, q);
    x := Wrap32(2 * guess + Wrap32(q));
    x := Wrap32(x * 341) / 1024;
  }

  lemma PositiveDivisor(guess: nat, a: nat)
    requires Guess(guess, a)
    ensures Divisor(guess) > 0
  {
  }

  function Divisor(x: nat): (d: int) {
    x * (x - 1)
  }

  lemma StepResult(guess: nat, d: nat, a: nat, q: nat)
    requires a < TWO64 && Guess(guess, a) && d == Divisor(guess) && d > 0 && q == a / d
    ensures (2 * guess + q) * 341 < TWO32 && Near((2 * guess + q) * 341 / 1024, a)
    ensures Wrap32(q) == q && Wrap32(2 * guess + q) == 2 * guess + q
    ensures Wrap32((2 * guess + q) * 341) == (2 * guess + q) * 341
  {
    if guess < 16 {
      SmallGuess(guess, a);
    } else {
      LargeGuess(guess, a);
    }
    NoWrap(guess, d, a);
    hide Guess, Near, Wrap32;
    Unwrapped(q);
    Unwrapped(2 * guess + q);
    Unwrapped((2 * guess + q) * 341);
  }

  lemma Below64(a: nat, b: nat)
    requires BitLength(a, b) && b < 7
    ensures a < 64
  {
    PowGrows(b, 6);
    assert Pow2(6) == 64;
  }

  lemma AtLeast64(a: nat, b: nat)
    requires BitLength(a, b) && b >= 7
    ensures a >= 64
  {
    PowGrows(6, b - 1);
    assert Pow2(6) == 64;
  }

  method FirstGuess(a: nat, b: nat, shift: nat) returns (x: nat)
    requires a >= 64 && 1 <= b <= 20 && shift == a / Pow2(3 * b) && 8 <= shift < 64
    ensures Guess(x, a)
  {
    hide *;
    var scaled := Shl(Leading(shift) + 10, b);
    Scaled(b, Leading(shift) + 10);
    Unwrapped(scaled);
    x := Wrap32(scaled) / 64;
    FirstGood(a, b, shift, x);
  }

  /** A left shift, before it is cut to a word. */
  function Shl(x: nat, b: nat): nat {
    x * Pow2(b)
  }

  lemma Scaled(b: nat, c: nat)
    requires 1 <= b <= 20 && c <= 264
    ensures 2 <= Pow2(b) && Shl(c, b) < TWO32
  {
    PowGrows(1, b);
    PowGrows(b, 20);
    Powers();
    PowAdd(4, 16);
    hide Pow2;
    Times(c, 264, Pow2(b));
  }

  lemma FirstGood(a: nat, b: nat, shift: nat, x: nat)
    requires a >= 64 && 1 <= b <= 20 && shift == a / Pow2(3 * b) && 8 <= shift < 64
    requires 64 * x <= Shl(Leading(shift) + 10, b) < 64 * x + 64
    ensures Guess(x, a)
  {
    hide Pow2, Cube, Guess, Leading;
    Scaled(b, Leading(shift) + 10);
    PowCubed(b);
    Quotient(a, Cube(Pow2(b)));
    GuessGood(a, Pow2(b), shift, x);
  }

  lemma Quotient(a: nat, p: nat)
    requires p > 0
    ensures a / p * p <= a < a / p * p + p
  {
  }

  // ------------------------------------------------------------ friendliness

  /** The acknowledgement count after n turns of the loop, which runs while the count exceeds
      delta. */
  function Drained(ackCnt: nat, delta: nat, n: nat): (r: nat)
    ensures r <= ackCnt
  {
    if n == 0 || ackCnt <= delta then ackCnt else Drained(ackCnt - delta, delta, n - 1)
  }

  /** The loop ends if and only if delta is positive or nothing is counted: a window of zero
      segments with acknowledgements pending never leaves it. */
  lemma {:induction false} LoopEnds(ackCnt: nat, delta: nat)
    ensures (exists n: nat :: Drained(ackCnt, delta, n) <= delta) <==> delta > 0 || ackCnt == 0
  {
    if delta > 0 {
      DrainedEnough(ackCnt, delta, ackCnt);
    } else {
      forall n: nat
        ensures Drained(ackCnt, 0, n) == ackCnt
      {
        DrainedNever(ackCnt, n);
      }
      assert ackCnt == 0 ==> Drained(ackCnt, delta, 0) <= delta;
    }
  }

  lemma {:induction false} DrainedEnough(ackCnt: nat, delta: nat, n: nat)
    requires delta > 0 && n >= ackCnt
    ensures Drained(ackCnt, delta, n) <= delta
    decreases n
  {
    if n > 0 && ackCnt > delta {
      DrainedEnough(ackCnt - delta, delta, n - 1);
    }
  }

  lemma {:induction false} DrainedNever(ackCnt: nat, n: nat)
    ensures Drained(ackCnt, 0, n) == ackCnt
  {
    if n > 0 && ackCnt > 0 {
      DrainedNever(ackCnt, n - 1);
    }
  }

  class TcpCubic {
    const betaScale: nat
    const delayedAck: nat
    var ackCnt: nat
    var tcpCwnd: nat

    constructor (betaScale: nat, delayedAck: nat)
      requires delayedAck > 0
      ensures this.betaScale == betaScale && this.delayedAck == delayedAck && ackCnt == 0 && tcpCwnd == 0
    {
      this.betaScale, this.delayedAck := betaScale, delayedAck;
      ackCnt, tcpCwnd := 0, 0;
    }

    /** Every turn of the loop trades delta acknowledgements for one segment of the window TCP
        would have; the count returned is never zero and never slower than TCP. */
    method CubicTcpFriendliness(cwndSeg: nat, cnt: nat) returns (r: nat, ghost turns: nat)
      requires delayedAck > 0 && ackCnt < TWO32 && tcpCwnd < TWO32
      requires Wrap32(cwndSeg * betaScale) >= 8 || ackCnt == 0
      modifies this
      ensures ackCnt + turns * (Wrap32(cwndSeg * betaScale) / 8) == old(ackCnt)
      ensures ackCnt <= Wrap32(cwndSeg * betaScale) / 8 && (ackCnt == 0 <==> old(ackCnt) == 0)
      ensures tcpCwnd == Wrap32(old(tcpCwnd) + turns)
      ensures r == Counted(Limit(cwndSeg, tcpCwnd, cnt), delayedAck) && r >= 1
    {
      hide Wrap32, Limit;
      var delta := Wrap32(cwndSeg * betaScale) / 8;
      turns := Drain(delta);
      r := Counted(Limit(cwndSeg, tcpCwnd, cnt), delayedAck);
    }

    method Drain(delta: nat) returns (ghost turns: nat)
      requires (delta > 0 || ackCnt == 0) && tcpCwnd < TWO32
      modifies this
      ensures ackCnt + turns * delta == old(ackCnt) && ackCnt <= delta
      ensures ackCnt == 0 <==> old(ackCnt) == 0
      ensures tcpCwnd == Wrap32(old(tcpCwnd) + turns)
    {
      turns := 0;
      while ackCnt > delta
        invariant ackCnt + turns * delta == old(ackCnt) && (ackCnt == 0 <==> old(ackCnt) == 0)
        invariant tcpCwnd == Wrap32(old(tcpCwnd) + turns)
      {
        Turn(turns, delta);
        WrapNext(old(tcpCwnd) + turns);
        ackCnt := ackCnt - delta;
        tcpCwnd := Wrap32(tcpCwnd + 1);
        turns := turns + 1;
      }
    }
  }

  lemma Turn(turns: nat, delta: nat)
    ensures (turns + 1) * delta == turns * delta + delta
  {
  }

  lemma WrapNext(x: nat)
    ensures Wrap32(Wrap32(x) + 1) == Wrap32(x + 1)
  {
  }

  /** The count at which the window grows no slower than TCP's. */
  function Limit(cwndSeg: nat, tcpCwnd: nat, cnt: nat): (r: nat)
    ensures r <= cnt && (tcpCwnd > cwndSeg ==> r * (tcpCwnd - cwndSeg) <= cwndSeg)
  {
    if tcpCwnd > cwndSeg then
      var most := cwndSeg / (tcpCwnd - cwndSeg);
      if cnt > most then most else cnt
    else cnt
  }

  /** It is the greatest count, up to the given one, at which the window gains as many segments
      in a round trip as TCP's is ahead. */
  lemma LimitGreatest(cwndSeg: nat, tcpCwnd: nat, cnt: nat, r: nat)
    requires r <= cnt && (tcpCwnd > cwndSeg ==> r * (tcpCwnd - cwndSeg) <= cwndSeg)
    ensures r <= Limit(cwndSeg, tcpCwnd, cnt)
  {
    if tcpCwnd > cwndSeg {
      QuotientGreatest(cwndSeg, tcpCwnd - cwndSeg, r);
    }
  }

  lemma MoreTimes(j: nat, k: nat, d: nat)
    requires j <= k
    ensures j * d <= k * d
  {
    assert (k - j) * d >= 0;
  }

  lemma QuotientGreatest(a: nat, d: nat, r: nat)
    requires d > 0 && r * d <= a
    ensures r <= a / d
  {
    var q := a / d;
    assert a < (q + 1) * d;
    if r > q {
      MoreTimes(q + 1, r, d);
      assert false;
    }
  }

  /** The count is scaled by 16 over the delayed-ack ratio and rounded down, but to no less
      than one. */
  lemma CountedExactly(cnt: nat, delayedAck: nat)
    requires delayedAck > 0 && cnt * 16 < TWO32
    ensures
      var r := Counted(cnt, delayedAck);
      && 16 * cnt < (r + 1) * delayedAck
      && (r * delayedAck <= 16 * cnt || r == 1)
  {
    var q := cnt * 16 / delayedAck;
    assert Wrap32(cnt * 16) == cnt * 16;
    assert cnt * 16 == q * delayedAck + cnt * 16 % delayedAck;
    assert (q + 1) * delayedAck == q * delayedAck + delayedAck;
  }

  function Counted(cnt: nat, delayedAck: nat): (r: nat)
    requires delayedAck > 0
    ensures r >= 1
  {
    var scaled := Wrap32(cnt * 16) / delayedAck;
    if scaled == 0 then 1 else scaled
  }
}
