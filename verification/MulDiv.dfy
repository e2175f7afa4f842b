// Signed and unsigned multiplication and division from unsigned magnitudes, for
// words of any width (npc_chisel/npc_chisel/src/core/EXE.scala). The results are
// those of sections 7.1 and 7.2 of the RISC-V Unprivileged ISA (version 20191213).
module MulDiv {
  import opened Division

  // ----- Words -----

  function Pow2(w: nat): (m: nat)
    ensures m > 0
  {
    if w == 0 then 1 else 2 * Pow2(w - 1)
  }

  /** The number of words of w bits; half of them are negative as signed numbers. */
  predicate IsModulus(m: nat) { m > 0 && m % 2 == 0 }

  lemma PowersAreModuli(w: nat)
    requires w > 0
    ensures IsModulus(Pow2(w))
  {
    var half := Pow2(w - 1);
    assert Pow2(w) == 2 * half && 2 * half % 2 == 0;
  }

  predicate Negative(a: nat, m: nat) { a >= m / 2 }

  /** The two's-complement reading of a word. */
  function Signed(a: nat, m: nat): int { if Negative(a, m) then a - m else a }

  // ----- The data path -----

  datatype MulOp = Mul | Mulh | Mulhsu | Mulhu
  datatype DivOp = Div | Divu | Rem | Remu

  /** asSInt.abs.asUInt, in the width of the operand. */
  function Magnitude(a: nat, m: nat): (r: nat)
    requires IsModulus(m) && a < m
    ensures r < m && (r == 0 <==> a == 0)
  {
    if Negative(a, m) then m - a else a
  }

  function Negated(enable: bool, x: int): int { if enable then -x else x }

  /** The concatenation of the enable bit with the complemented or plain value, plus
      the enable bit; the result keeps one bit more than the n-valued operand. */
  function Corrected(enable: bool, x: nat, n: nat): nat
    requires x < n
  {
    if enable then (n + (n - 1 - x) + 1) % (2 * n) else x
  }

  function MulResult(op: MulOp, a: nat, b: nat, m: nat): nat
    requires IsModulus(m) && a < m && b < m
  {
    var signedA := op == Mul || op == Mulh || op == Mulhsu;
    var signedB := op == Mul || op == Mulh;
    var absA := if signedA then Magnitude(a, m) else a;
    var absB := if signedB then Magnitude(b, m) else b;
    var negative := if op == Mulhsu then Negative(a, m) else Negative(a, m) != Negative(b, m);
    var enable := (signedA || signedB) && negative;
    ProductInRange(absA, absB, m);
    var final := Corrected(enable, absA * absB, m * m);
    if op == Mul then final % m else final / m % m
  }

  function DivResult(op: DivOp, a: nat, b: nat, m: nat): nat
    requires IsModulus(m) && a < m && b < m
  {
    var signed := op == Div || op == Rem;
    var absA := if signed then Magnitude(a, m) else a;
    var absB := if signed then Magnitude(b, m) else b;
    var wantsQuotient := op == Div || op == Divu;
    if b == 0 then (if wantsQuotient then m - 1 else a)
    else if signed && a == m / 2 && b == m - 1 then (if wantsQuotient then m / 2 else 0)
    else
      if wantsQuotient then QuotientBits(signed && Negative(a, m) != Negative(b, m), absA, absB, m)
      else RemainderBits(signed && Negative(a, m), absA, absB, m)
  }

  function QuotientBits(negate: bool, x: nat, y: nat, m: nat): nat
    requires x < m && y > 0
  {
    QuotientInRange(x, y, m);
    Corrected(negate, x / y, m) % m
  }

  function RemainderBits(negate: bool, x: nat, y: nat, m: nat): nat
    requires x < m && y > 0
  {
    QuotientInRange(x, y, m);
    Corrected(negate, x % y, m) % m
  }

  // ----- Arithmetic -----

  lemma ProductInRange(x: nat, y: nat, m: nat)
    requires x < m && y < m
    ensures 0 <= x * y < m * m
  {
    ProductOrder(x, m - 1, y);
    ProductOrder(y, m - 1, m - 1);
    assert (m - 1) * (m - 1) == m * m - 2 * m + 1;
  }

  lemma QuotientInRange(x: nat, y: nat, m: nat)
    requires x < m && y > 0
    ensures x / y < m && x % y < m
  {
    assert x == x / y * y + x % y;
    ProductOrder(1, y, x / y);
  }

  /** The low and the high half of a double word are those of any number that it
      represents. */
  lemma HalvesOf(x: int, m: nat)
    requires m > 0
    ensures m * m > 0 && x % (m * m) % m == x % m && x % (m * m) / m == x / m % m
  {
    ProductOrder(1, m, m);
    var h, l := x / m, x % m;
    var g, k := h / m, h % m;
    DoubleWord(x, h, l, g, k, m);
    DivisionUnique(x, g, k * m + l, m * m);
    DivisionUnique(k * m + l, k, l, m);
  }

  lemma DoubleWord(x: int, h: int, l: nat, g: int, k: nat, m: nat)
    requires x == h * m + l && h == g * m + k && k < m && l < m
    ensures x == g * (m * m) + (k * m + l) && k * m + l < m * m
  {
    ProductOrder(k, m - 1, m);
    assert g * m * m == g * (m * m);
  }

  /** Complement and increment, without the extra bit, is negation. */
  lemma CorrectedIsNegation(enable: bool, x: nat, n: nat)
    requires x < n
    ensures Corrected(enable, x, n) % n == Negated(enable, x) % n
  {
    if enable {
      if x == 0 {
        DivisionUnique(2 * n, 1, 0, 2 * n);
      } else {
        DivisionUnique(n + (n - 1 - x) + 1, 0, 2 * n - x, 2 * n);
        DivisionUnique(2 * n - x, 1, n - x, n);
        DivisionUnique(Negated(true, x), -1, n - x, n);
      }
    }
  }

  lemma HalvesOfCorrected(enable: bool, x: nat, m: nat)
    requires m > 0 && x < m * m
    ensures var y := Negated(enable, x);
            Corrected(enable, x, m * m) % m == y % m && Corrected(enable, x, m * m) / m % m == y / m % m
  {
    var y := Negated(enable, x);
    var c := Corrected(enable, x, m * m);
    CorrectedIsNegation(enable, x, m * m);
    HalvesOf(c, m);
    HalvesOf(y, m);
  }

  // ----- Multiplication -----

  /** The exact product of the operands as each instruction reads them. */
  function Product(op: MulOp, a: nat, b: nat, m: nat): int {
    match op
    case Mul => Signed(a, m) * Signed(b, m)
    case Mulh => Signed(a, m) * Signed(b, m)
    case Mulhsu => Signed(a, m) * b
    case Mulhu => a * b
  }

  lemma MagnitudeOf(a: nat, m: nat)
    requires IsModulus(m) && a < m
    ensures Signed(a, m) == Negated(Negative(a, m), Magnitude(a, m))
  {
  }

  lemma SignsOfProduct(x: int, y: int)
    ensures -x * y == -(x * y) && x * -y == -(x * y) && -x * -y == x * y
  {
  }

  /** MUL yields the low half of the exact product, the others its high half. */
  lemma MultiplicationIsExact(op: MulOp, a: nat, b: nat, w: nat)
    requires w > 0 && a < Pow2(w) && b < Pow2(w)
    ensures IsModulus(Pow2(w))
    ensures MulResult(op, a, b, Pow2(w)) ==
      if op == Mul then Product(op, a, b, Pow2(w)) % Pow2(w) else Product(op, a, b, Pow2(w)) / Pow2(w) % Pow2(w)
  {
    PowersAreModuli(w);
    MultiplicationModulo(op, a, b, Pow2(w));
  }

  lemma MultiplicationModulo(op: MulOp, a: nat, b: nat, m: nat)
    requires IsModulus(m) && a < m && b < m
    ensures MulResult(op, a, b, m) == if op == Mul then Product(op, a, b, m) % m else Product(op, a, b, m) / m % m
  {
    MagnitudeOf(a, m);
    MagnitudeOf(b, m);
    var absA := if op == Mulhu then a else Magnitude(a, m);
    var absB := if op == Mul || op == Mulh then Magnitude(b, m) else b;
    var enable := op != Mulhu && (if op == Mulhsu then Negative(a, m) else Negative(a, m) != Negative(b, m));
    SignsOfProduct(absA, absB);
    ProductInRange(absA, absB, m);
    assert Product(op, a, b, m) == Negated(enable, absA * absB);
    HalvesOfCorrected(enable, absA * absB, m);
  }

  // ----- Division -----

  function Abs(x: int): nat { if x < 0 then -x else x }

  /** Division that rounds towards zero; the remainder has the sign of the dividend. */
  predicate TruncatedDivision(x: int, y: int, q: int, r: int) {
    x == q * y + r && Abs(r) < Abs(y) && (r == 0 || (r < 0 <==> x < 0))
  }

  /** Quotient and remainder of the magnitudes, with signs. */
  lemma DivisionOfMagnitudes(x: int, y: int)
    requires y != 0
    ensures var q, r := Abs(x) / Abs(y), Abs(x) % Abs(y);
            TruncatedDivision(x, y, Negated((x < 0) != (y < 0), q), Negated(x < 0, r))
  {
    var q, r := Abs(x) / Abs(y), Abs(x) % Abs(y);
    assert Abs(x) == q * Abs(y) + r;
    SignsOfProduct(q, y);
    SignsOfProduct(q, -y);
  }

  lemma TruncatedDivisionUnique(x: int, y: int, q1: int, r1: int, q2: int, r2: int)
    requires y != 0 && TruncatedDivision(x, y, q1, r1) && TruncatedDivision(x, y, q2, r2)
    ensures q1 == q2 && r1 == r2
  {
    assert (q1 - q2) * y == r2 - r1;
    MultipleBelow(q1 - q2, y);
  }

  /** A multiple of y that is smaller than y in magnitude is zero. */
  lemma MultipleBelow(d: int, y: int)
    requires y != 0
    ensures Abs(d * y) < Abs(y) ==> d == 0
  {
    if d >= 1 {
      ProductOrder(1, d, Abs(y));
      SignsOfProduct(d, y);
    } else if d <= -1 {
      ProductOrder(1, -d, Abs(y));
      SignsOfProduct(d, y);
      SignsOfProduct(-d, y);
    }
  }

  /** Division by zero gives all ones and the dividend; otherwise DIV and REM give
      the quotient rounded towards zero and its remainder, the most negative
      dividend included, DIVU and REMU those of the unsigned operands. */
  lemma DivisionIsExact(op: DivOp, a: nat, b: nat, w: nat, q: int, r: int)
    requires w > 0 && a < Pow2(w) && b < Pow2(w)
    ensures IsModulus(Pow2(w))
    ensures b == 0 ==> DivResult(op, a, b, Pow2(w)) == if op == Div || op == Divu then Pow2(w) - 1 else a
    ensures b != 0 && (op == Div || op == Rem) && TruncatedDivision(Signed(a, Pow2(w)), Signed(b, Pow2(w)), q, r) ==>
      DivResult(op, a, b, Pow2(w)) == (if op == Div then q else r) % Pow2(w)
    ensures b != 0 ==> DivResult(Divu, a, b, Pow2(w)) == a / b && DivResult(Remu, a, b, Pow2(w)) == a % b
  {
    PowersAreModuli(w);
    var m := Pow2(w);
    if b != 0 {
      UnsignedDivision(a, b, m);
      if (op == Div || op == Rem) && TruncatedDivision(Signed(a, m), Signed(b, m), q, r) {
        SignedDivision(op, a, b, m, q, r);
      }
    }
  }

  lemma UnsignedDivision(a: nat, b: nat, m: nat)
    requires IsModulus(m) && a < m && 0 < b < m
    ensures DivResult(Divu, a, b, m) == a / b && DivResult(Remu, a, b, m) == a % b
  {
    QuotientInRange(a, b, m);
    DivisionUnique(a / b, 0, a / b, m);
    DivisionUnique(a % b, 0, a % b, m);
  }

  lemma SignedDivision(op: DivOp, a: nat, b: nat, m: nat, q: int, r: int)
    requires IsModulus(m) && a < m && 0 < b < m && (op == Div || op == Rem)
    requires TruncatedDivision(Signed(a, m), Signed(b, m), q, r)
    ensures DivResult(op, a, b, m) == (if op == Div then q else r) % m
  {
    var x, y := Signed(a, m), Signed(b, m);
    MagnitudeOf(a, m);
    MagnitudeOf(b, m);
    DivisionOfMagnitudes(x, y);
    TruncatedDivisionUnique(x, y, q, r, Negated((x < 0) != (y < 0), Abs(x) / Abs(y)), Negated(x < 0, Abs(x) % Abs(y)));
    MagnitudesDivided(op, a, b, m);
  }

  lemma MagnitudesDivided(op: DivOp, a: nat, b: nat, m: nat)
    requires IsModulus(m) && a < m && 0 < b < m && (op == Div || op == Rem)
    ensures Magnitude(b, m) > 0
    ensures DivResult(op, a, b, m) ==
      if op == Div then Negated(Negative(a, m) != Negative(b, m), Magnitude(a, m) / Magnitude(b, m)) % m
      else Negated(Negative(a, m), Magnitude(a, m) % Magnitude(b, m)) % m
  {
    MagnitudeOf(b, m);
    if a == m / 2 && b == m - 1 {
      Overflow(m);
    } else {
      OrdinaryDivision(op, a, b, m, Magnitude(a, m), Magnitude(b, m));
    }
  }

  lemma OrdinaryDivision(op: DivOp, a: nat, b: nat, m: nat, c: nat, d: nat)
    requires IsModulus(m) && a < m && 0 < b < m && (op == Div || op == Rem) && !(a == m / 2 && b == m - 1)
    requires c == Magnitude(a, m) && d == Magnitude(b, m) > 0
    ensures DivResult(op, a, b, m) ==
      if op == Div then Negated(Negative(a, m) != Negative(b, m), c / d) % m else Negated(Negative(a, m), c % d) % m
  {
    QuotientInRange(c, d, m);
    if op == Div {
      CorrectedIsNegation(Negative(a, m) != Negative(b, m), c / d, m);
    } else {
      CorrectedIsNegation(Negative(a, m), c % d, m);
    }
  }

  /** The special case of the data path fits the general rule. */
  lemma Overflow(m: nat)
    requires IsModulus(m)
    ensures Magnitude(m / 2, m) == m / 2 && Magnitude(m - 1, m) == 1 && m / 2 / 1 == m / 2 && m / 2 % 1 == 0
    ensures Negative(m / 2, m) && Negative(m - 1, m) && m / 2 % m == m / 2 && Negated(true, 0) % m == 0
  {
    DivisionUnique(m / 2, 0, m / 2, m);
    DivisionUnique(0, 0, 0, m);
  }
}
