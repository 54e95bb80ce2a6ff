/**
 * The integer stage of `getCode`: a grid point `(x, y)`, already shuffled,
 * rescaled and rounded, is linearised to one index `i = x + y * 130400`,
 * which is then split into the three base-2041 digits `[p, q, r]` that
 * address the chord catalog.
 */
module GridCode {
  import opened Arith

  /** Grid columns: longitude [-180, 180] is rescaled to [0, LonSteps]. */
  const LonSteps: nat := 130400
  /** Grid rows: latitude [-85.051129, 85.051129] is rescaled to [0, LatSteps]. */
  const LatSteps: nat := 65200
  /** The radix of the chord triple. */
  const Radix: nat := 2041

  /** The rounded, rescaled coordinates can only land in this range. */
  predicate OnGrid(x: nat, y: nat) {
    x <= LonSteps && y <= LatSteps
  }

  /** `i = x + y * 130400`. */
  function Linearize(x: nat, y: nat): (i: nat)
    requires OnGrid(x, y)
    ensures i <= LonSteps * (LatSteps + 1)
  {
    x + y * LonSteps
  }

  /** The value of a digit triple read as a base-2041 numeral, most significant digit first. */
  function CodeValue(c: seq<nat>): nat
    requires |c| == 3
  {
    c[0] * Radix * Radix + c[1] * Radix + c[2]
  }

  /** Digits of an index: the top digit is the index divided by 2041 twice. */
  function Digits(i: nat): (c: seq<nat>)
    ensures |c| == 3 && CodeValue(c) == i
    ensures c[1] < Radix && c[2] < Radix
  {
    var p := i / Radix / Radix;
    var rest := i - p * Radix * Radix;
    Euclid2(i);
    var q := rest / Radix;
    var r := i % Radix;
    [p, q, r]
  }

  /** The facts about `i / 2041 / 2041` that `Digits` relies on. */
  lemma Euclid2(i: nat)
    ensures var p := i / Radix / Radix; var rest := i - p * Radix * Radix;
      0 <= rest < Radix * Radix && rest / Radix < Radix && rest % Radix == i % Radix &&
      p * Radix * Radix + (rest / Radix) * Radix + i % Radix == i
  {
    var a := i / Radix;
    var p := a / Radix;
    assert i == a * Radix + i % Radix;
    assert a == p * Radix + a % Radix;
    var rest := i - p * Radix * Radix;
    assert rest == (a % Radix) * Radix + i % Radix;
    assert rest / Radix == a % Radix && rest % Radix == i % Radix by {
      DivModOf(rest, Radix, a % Radix, i % Radix);
    }
  }

  /**
   * `getCode` from the rounded grid point on: the digits of the linearised
   * index. The low two digits are always below 2041 and the three digits
   * give the index back; the top digit stays at or below 2041.
   */
  function GetCode(x: nat, y: nat): (c: seq<nat>)
    requires OnGrid(x, y)
    ensures |c| == 3
    ensures c[0] * Radix * Radix + c[1] * Radix + c[2] == x + y * LonSteps
    ensures c[1] < Radix && c[2] < Radix
    ensures c[0] <= Radix
  {
    var c := Digits(Linearize(x, y));
    assert c[0] * Radix * Radix <= LonSteps * (LatSteps + 1);
    c
  }

  /**
   * The digits are the base-2041 numeral of the index: any triple whose low
   * digits are below 2041 and whose value is `i` is the triple `Digits(i)`.
   */
  lemma DigitsUnique(i: nat, c: seq<nat>)
    requires |c| == 3 && c[1] < Radix && c[2] < Radix && CodeValue(c) == i
    ensures c == Digits(i)
  {
    var d := Digits(i);
    var low := c[1] * Radix + c[2];
    var low' := d[1] * Radix + d[2];
    assert 0 <= low < Radix * Radix && 0 <= low' < Radix * Radix;
    DivModOf(i, Radix * Radix, c[0], low);
    DivModOf(i, Radix * Radix, d[0], low');
    DivModOf(low, Radix, c[1], c[2]);
    DivModOf(low, Radix, d[1], d[2]);
  }

  /** The top digit is 2041, one past the largest base-2041 digit, exactly when `i >= 2041^3`. */
  lemma TopDigitIsRadixIff(x: nat, y: nat)
    requires OnGrid(x, y)
    ensures GetCode(x, y)[0] == Radix <==> Linearize(x, y) >= Radix * Radix * Radix
  {
    var c := GetCode(x, y);
    if c[0] < Radix {
      assert c[0] * Radix * Radix <= (Radix - 1) * Radix * Radix;
    }
  }

  /** The bound `p <= 2041` is tight: the north-east corner of the grid reaches it. */
  lemma TopDigitReachesRadix()
    ensures OnGrid(LonSteps, LatSteps) && GetCode(LonSteps, LatSteps)[0] == Radix
  {
    TopDigitIsRadixIff(LonSteps, LatSteps);
  }

  /** Grid point of an index: column `i % 130400`, row `i / 130400`. */
  function GridPoint(i: nat): (xy: (nat, nat))
    ensures xy.0 < LonSteps && xy.0 + xy.1 * LonSteps == i
  {
    (i % LonSteps, i / LonSteps)
  }

  /** Away from the last column, `GridPoint` undoes `Linearize`. */
  lemma GridPointInverts(x: nat, y: nat)
    requires OnGrid(x, y) && x < LonSteps
    ensures GridPoint(Linearize(x, y)) == (x, y)
  {
    DivModOf(Linearize(x, y), LonSteps, y, x);
  }

  /** The last column of one row and the first column of the next share an index. */
  lemma LastColumnCollides(y: nat)
    requires y < LatSteps
    ensures OnGrid(LonSteps, y) && OnGrid(0, y + 1)
    ensures Linearize(LonSteps, y) == Linearize(0, y + 1)
  {
  }

  /** Two grid points off the last column with the same chord triple are the same point. */
  lemma GetCodeInjective(x: nat, y: nat, x': nat, y': nat)
    requires OnGrid(x, y) && OnGrid(x', y') && x < LonSteps && x' < LonSteps
    requires GetCode(x, y) == GetCode(x', y')
    ensures x == x' && y == y'
  {
    GridPointInverts(x, y);
    GridPointInverts(x', y');
  }
}
