/**
 * Body-mass index with a guard (`calcular_imc`, app.py lines 33-39): weight
 * in kilograms over the square of the height in metres, rounded to two
 * decimals, but only when both inputs are positive numbers; otherwise, and
 * whenever the computation raises, the integer 0.
 */
module Bmi {

  /** A value handed to `calcular_imc`, as Python sees it. */
  datatype Arg =
    | Num(x: real)   // a finite number
    | NaN            // a float NaN: every comparison with it is false
    | NonNumeric     // None, text, ...: comparing it with 0 raises TypeError

  /** The result: the integer 0 of the guard and of the handler, or a rounded quotient. */
  datatype ImcResult = Zero | Rounded(value: real)

  /** The number the page displays. */
  function Shown(r: ImcResult): real {
    match r
    case Zero => 0.0
    case Rounded(v) => v
  }

  /** `x` is a whole number of hundredths. */
  predicate IsCents(x: real) {
    (x * 100.0).Floor as real == x * 100.0
  }

  /** `x` and `y` are at most half a hundredth apart. */
  predicate Near(x: real, y: real) {
    -0.005 <= x - y <= 0.005
  }

  /** `round(x, 2)` on the exact value: the nearest hundredth, ties to the even one. */
  function Round2(x: real): (r: real)
    ensures IsCents(r)
    ensures Near(r, x)
    ensures x >= 0.0 ==> r >= 0.0
  {
    var y := x * 100.0;
    var k := y.Floor;
    var n := if y - k as real < 0.5 then k
             else if y - k as real > 0.5 then k + 1
             else if k % 2 == 0 then k else k + 1;
    assert -0.5 <= n as real - y <= 0.5;
    var r := n as real / 100.0;
    assert r * 100.0 == n as real;
    assert (r * 100.0).Floor == n;
    r
  }

  /** A hundredth strictly closer than half a hundredth is the one `Round2` picks. */
  lemma Round2Nearest(x: real, c: real)
    requires IsCents(c)
    requires -0.005 < c - x < 0.005
    ensures Round2(x) == c
  {
    var y := x * 100.0;
    var k := y.Floor;
    var m := (c * 100.0).Floor;
    assert m as real == c * 100.0;
    assert -0.5 < m as real - y < 0.5;
    var f := y - k as real;
    assert 0.0 <= f < 1.0;
    if f < 0.5 {
      assert m == k;
    } else if f > 0.5 {
      assert m == k + 1;
    } else {
      assert false;
    }
    assert c == m as real / 100.0;
  }

  /** A value that already has two decimals is left as it is. */
  lemma Round2Cents(x: real)
    requires IsCents(x)
    ensures Round2(x) == x
  {
    Round2Nearest(x, x);
  }

  /** Rounding never reverses the order of two values. */
  lemma Round2Monotone(x: real, y: real)
    requires x <= y
    ensures Round2(x) <= Round2(y)
  {
    var kx, ky := (x * 100.0).Floor, (y * 100.0).Floor;
    assert kx <= ky;
    if kx == ky {
      assert x * 100.0 - kx as real <= y * 100.0 - ky as real;
    }
  }

  /**
   * Weight over the square of the height in metres, `peso / (altura_cm/100)**2`,
   * written as two divisions by the height in metres (the same real number).
   */
  function Quotient(peso: real, altura: real): real
    requires altura > 0.0
  {
    peso / (altura / 100.0) / (altura / 100.0)
  }

  /** Dividing by a positive number keeps the order. */
  lemma DivMonotone(x: real, y: real, m: real)
    requires x <= y && m > 0.0
    ensures x / m <= y / m
  {
    var d := y / m - x / m;
    assert d * m == y - x;
  }

  /**
   * `calcular_imc(peso, altura_cm)`. The guard `peso > 0 and altura_cm > 0`
   * is false for NaN and raises for a non-number; both end in the integer 0.
   */
  function CalcImc(peso: Arg, altura: Arg): (r: ImcResult)
    ensures r.Rounded? <==> (peso.Num? && altura.Num? && peso.x > 0.0 && altura.x > 0.0)
    ensures r.Rounded? ==> IsCents(r.value) && Near(r.value, Quotient(peso.x, altura.x))
    ensures Shown(r) >= 0.0
  {
    if peso.Num? && altura.Num? && peso.x > 0.0 && altura.x > 0.0 then
      Rounded(Round2(Quotient(peso.x, altura.x)))
    else
      Zero
  }

  /** With both inputs positive the result is the hundredth nearest to weight / height in metres squared. */
  lemma ImcIsNearestHundredth(peso: real, altura: real, c: real)
    requires peso > 0.0 && altura > 0.0
    requires IsCents(c) && -0.005 < c - Quotient(peso, altura) < 0.005
    ensures CalcImc(Num(peso), Num(altura)) == Rounded(c)
  {
    Round2Nearest(Quotient(peso, altura), c);
  }

  /** At a height of 100 cm the index is the weight itself, rounded; a weight given to two decimals comes back unchanged. */
  lemma ImcAtOneMetre(peso: real)
    requires peso > 0.0
    ensures CalcImc(Num(peso), Num(100.0)) == Rounded(Round2(peso))
    ensures IsCents(peso) ==> CalcImc(Num(peso), Num(100.0)) == Rounded(peso)
  {
    assert Quotient(peso, 100.0) == peso;
    if IsCents(peso) {
      Round2Cents(peso);
    }
  }

  /**
   * At a fixed height a heavier child never gets a smaller index, for any two
   * weights, the 0.0 of a missing weight included: below the guard the lighter
   * side shows 0.
   */
  lemma ImcMonotoneInWeight(p1: real, p2: real, altura: real)
    requires p1 <= p2
    ensures Shown(CalcImc(Num(p1), Num(altura))) <= Shown(CalcImc(Num(p2), Num(altura)))
  {
    if 0.0 < p1 && altura > 0.0 {
      var m := altura / 100.0;
      DivMonotone(p1, p2, m);
      DivMonotone(p1 / m, p2 / m, m);
      Round2Monotone(Quotient(p1, altura), Quotient(p2, altura));
    }
  }

  /** 20 kg at 125 cm: 20 / 1.25 / 1.25 = 12.8 exactly. */
  lemma ImcExample()
    ensures CalcImc(Num(20.0), Num(125.0)) == Rounded(12.8)
  {
    assert Quotient(20.0, 125.0) == 12.8;
    ImcIsNearestHundredth(20.0, 125.0, 12.8);
  }
}
